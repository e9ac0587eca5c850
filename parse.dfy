/**
 * `odbcshell_parse_line`: one left-to-right pass over a NUL-terminated buffer
 * that splits the first statement into tokens, reports where the statement
 * ends (`eol`, 0 meaning "need more input") and rewrites some characters of
 * the caller's buffer to spaces as it goes.
 *
 * `StepAt` is one turn of the C `for` loop (one `case` of its `switch`),
 * `ScanFrom` runs those turns to the end, and `ParseLine` is the in-place loop,
 * proved to compute exactly what `ScanFrom` computes.
 */
module Parsing {
  import opened Text

  /** Characters that end an unquoted token (quotes are not among them). */
  predicate IsDelim(c: char)
  {
    c == ';' || c == '#' || c == ' ' || c == '\t' || c == '\\' || c == '\n' || c == '\r'
  }

  /** Characters that end a `#` comment. */
  predicate IsLineEnd(c: char)
  {
    c == '\n' || c == '\r'
  }

  /** The characters a scan may overwrite with a space. */
  predicate IsRewritable(c: char)
  {
    c == '\\' || c == '\r' || c == '\n'
  }

  /** What an inner scanning loop looks for: a token delimiter or a line end. */
  datatype Until = Delimiter | LineEnd

  predicate Ends(u: Until, c: char)
  {
    match u
    case Delimiter => IsDelim(c)
    case LineEnd => IsLineEnd(c)
  }

  /** Outcome of a scan: the tokens, the end-of-statement index, the rewritten characters. */
  datatype Scan = Scan(args: seq<string>, eol: nat, buf: seq<char>)

  /** One turn of the loop either returns or moves on with new characters, position and tokens. */
  datatype Step = Stop(r: Scan) | Next(s: seq<char>, pos: nat, args: seq<string>)

  /** The first index at or after `i` holding a character that `u` looks for, or `|s|`. */
  function SkipTo(s: seq<char>, i: nat, u: Until): (j: nat)
    requires i <= |s|
    ensures i <= j <= |s|
    ensures j < |s| ==> Ends(u, s[j])
    ensures forall k :: i <= k < j ==> !Ends(u, s[k])
    decreases |s| - i
  {
    if i == |s| || Ends(u, s[i]) then i else SkipTo(s, i + 1, u)
  }

  /** The first index at or after `i` holding `q`, or `|s|`: where a quoted token closes. */
  function SkipPast(s: seq<char>, i: nat, q: char): (j: nat)
    requires i <= |s|
    ensures i <= j <= |s|
    ensures j < |s| ==> s[j] == q
    ensures forall k :: i <= k < j ==> s[k] != q
    decreases |s| - i
  {
    if i == |s| || s[i] == q then i else SkipPast(s, i + 1, q)
  }

  /** `t` is `s` with some backslashes, carriage returns and newlines turned into spaces. */
  predicate RewritesTo(s: seq<char>, t: seq<char>)
  {
    |s| == |t| && forall i :: 0 <= i < |s| ==> t[i] == s[i] || (t[i] == ' ' && IsRewritable(s[i]))
  }

  /** Tokens `args` extend `prefix` by non-empty strings only. */
  predicate ExtendsWithTokens(prefix: seq<string>, args: seq<string>)
  {
    |prefix| <= |args| && args[..|prefix|] == prefix &&
    forall k :: |prefix| <= k < |args| ==> |args[k]| > 0
  }

  /**
   * One turn of the loop at `pos < |s|`, the character there deciding the case.
   * A `Next` always moves forward, keeps the length and adds only non-empty tokens.
   */
  function StepAt(s: seq<char>, pos: nat, args: seq<string>): (st: Step)
    requires pos < |s|
    ensures st.Next? ==> |st.s| == |s| && pos < st.pos <= |s| && ExtendsWithTokens(args, st.args)
    ensures st.Stop? ==> st.r.args == args && |st.r.buf| == |s| && st.r.eol <= |s|
  {
    var c := s[pos];
    if c == '\n' || c == ';' then Stop(Scan(args, pos, s))
    else if c == '\\' then
      if pos + 1 == |s| then Stop(Scan(args, 0, s[pos := ' ']))
      else if s[pos + 1] == '\n' then Next(s[pos := ' '][pos + 1 := ' '], pos + 1, args)
      else Next(s[pos := ' '], pos + 1, args)
    else if c == ' ' || c == '\t' then Next(s, pos + 1, args)
    else if c == '\r' then Next(s[pos := ' '], pos + 1, args)
    else if c == '#' then
      var j := SkipTo(s, pos, LineEnd);
      if j == |s| then Stop(Scan(args, j, s)) else Next(s, j + 1, args)
    else if c == '\'' || c == '"' then
      if pos + 2 > |s| then Stop(Scan(args, 0, s))
      else
        var j := SkipPast(s, pos + 2, c);
        if j == |s| then Stop(Scan(args, 0, s)) else Next(s, j + 1, args + [s[pos + 1..j]])
    else
      var j := SkipTo(s, pos + 1, Delimiter);
      Next(s, j, args + [s[pos..j]])
  }

  /** The scan from position `pos` of the string `s` (the characters before the NUL). */
  function ScanFrom(s: seq<char>, pos: nat, args: seq<string>): (r: Scan)
    requires pos <= |s|
    ensures |r.buf| == |s| && r.eol <= |s|
    ensures ExtendsWithTokens(args, r.args)
    decreases |s| - pos
  {
    if pos == |s| then Scan(args, pos, s)
    else
      match StepAt(s, pos, args)
      case Stop(r) => r
      case Next(s', pos', args') => ScanFrom(s', pos', args')
  }

  /** A turn that moves on leaves the rest of the scan to where it moved. */
  lemma {:induction false} ScanTurn(s: seq<char>, pos: nat, args: seq<string>, t: seq<char>, pos': nat, args': seq<string>)
    requires pos < |s| && StepAt(s, pos, args) == Next(t, pos', args')
    ensures pos' <= |t| && ScanFrom(s, pos, args) == ScanFrom(t, pos', args')
  {
  }

  /** A turn that returns ends the scan with its outcome. */
  lemma {:induction false} ScanStop(s: seq<char>, pos: nat, args: seq<string>)
    requires pos < |s| && StepAt(s, pos, args).Stop?
    ensures ScanFrom(s, pos, args) == StepAt(s, pos, args).r
  {
  }

  /**
   * The loop goes from `pos` to `end` without returning and without rewriting
   * anything, the tokens growing from `args` to `res`.
   */
  ghost predicate Moves(s: seq<char>, pos: nat, args: seq<string>, end: nat, res: seq<string>)
    decreases end - pos
  {
    (pos == end && args == res) ||
    (pos < end <= |s| &&
     var st := StepAt(s, pos, args);
     st.Next? && st.s == s && st.pos <= end && Moves(s, st.pos, st.args, end, res))
  }

  /** Moving leaves the rest of the scan unchanged. */
  lemma {:induction false} MovesScan(s: seq<char>, pos: nat, args: seq<string>, end: nat, res: seq<string>)
    requires pos <= |s| && end <= |s| && Moves(s, pos, args, end, res)
    ensures ScanFrom(s, pos, args) == ScanFrom(s, end, res)
    decreases end - pos
  {
    if !(pos == end && args == res) {
      var st := StepAt(s, pos, args);
      ScanTurn(s, pos, args, s, st.pos, st.args);
      MovesScan(s, st.pos, st.args, end, res);
    }
  }

  /** Moves compose. */
  lemma {:induction false} MovesTrans(s: seq<char>, p1: nat, a1: seq<string>, p2: nat, a2: seq<string>,
                                      p3: nat, a3: seq<string>)
    requires p1 <= p2 && Moves(s, p1, a1, p2, a2) && Moves(s, p2, a2, p3, a3)
    ensures Moves(s, p1, a1, p3, a3)
    decreases p2 - p1
  {
    if !(p1 == p2 && a1 == a2) {
      var st := StepAt(s, p1, a1);
      MovesTrans(s, st.pos, st.args, p2, a2, p3, a3);
      MovesEnd(s, p2, a2, p3, a3);
    }
  }

  /** A move never goes backwards or past the string. */
  lemma {:induction false} MovesEnd(s: seq<char>, pos: nat, args: seq<string>, end: nat, res: seq<string>)
    requires Moves(s, pos, args, end, res)
    ensures pos <= end && (pos < end ==> end <= |s|)
    decreases end - pos
  {
  }

  /** A single turn that keeps the characters is a move. */
  lemma {:induction false} MovesOne(s: seq<char>, pos: nat, args: seq<string>, end: nat, res: seq<string>)
    requires pos < |s| && StepAt(s, pos, args) == Next(s, end, res)
    ensures Moves(s, pos, args, end, res)
  {
    assert Moves(s, end, res, end, res);
  }

  /** The whole pass over the string `s`. */
  function Parse(s: seq<char>): Scan
  {
    ScanFrom(s, 0, [])
  }

  /** The inner `while` loops of the comment and unquoted cases. */
  method FindFrom(line: array<char>, from: nat, len: nat, i: nat, u: Until) returns (pos: nat)
    requires i <= len && from + len <= line.Length
    ensures pos == SkipTo(line[from..from + len], i, u)
  {
    ghost var s := line[from..from + len];
    pos := i;
    while pos < len && !Ends(u, line[from + pos])
      invariant i <= pos <= len
      invariant SkipTo(s, i, u) == SkipTo(s, pos, u)
    {
      assert s[pos] == line[from + pos];
      pos := pos + 1;
    }
  }

  /** The inner `while` loop of the two quoted cases: step to the closing quote `q`. */
  method FindQuote(line: array<char>, from: nat, len: nat, i: nat, q: char) returns (pos: nat)
    requires i <= len && from + len <= line.Length
    ensures pos == SkipPast(line[from..from + len], i, q)
  {
    ghost var s := line[from..from + len];
    pos := i;
    while pos < len && line[from + pos] != q
      invariant i <= pos <= len
      invariant SkipPast(s, i, q) == SkipPast(s, pos, q)
    {
      assert s[pos] == line[from + pos];
      pos := pos + 1;
    }
  }

  /**
   * What one turn of the loop at `pos` reports, against `StepAt` on the
   * characters `s` it started from: returning (`done`, with `eol`) or moving
   * to `pos'`, with `t` the characters after the turn.
   */
  ghost predicate Turn(s: seq<char>, pos: nat, args: seq<string>,
                       done: bool, pos': nat, args': seq<string>, eol: nat, t: seq<char>)
    requires pos < |s|
  {
    var st := StepAt(s, pos, args);
    if done then st == Stop(Scan(args', eol, t)) else st == Next(t, pos', args')
  }

  /** After a turn, the scan either has its outcome or goes on from where the turn left it. */
  lemma {:induction false} TurnScan(s: seq<char>, pos: nat, args: seq<string>,
                 done: bool, pos': nat, args': seq<string>, eol: nat, t: seq<char>)
    requires pos < |s| && Turn(s, pos, args, done, pos', args', eol, t)
    ensures done ==> ScanFrom(s, pos, args) == Scan(args', eol, t)
    ensures !done ==> pos' <= |t| && ScanFrom(s, pos, args) == ScanFrom(t, pos', args')
  {
    if done {
      ScanStop(s, pos, args);
    } else {
      ScanTurn(s, pos, args, t, pos', args');
    }
  }

  /**
   * One turn of the `for` loop of `odbcshell_parse_line`: the `switch` on the
   * character at `pos` of the string `line[from..from + len]`. It either
   * returns from the parse (`done`, with `eol`) or moves to `pos'`.
   */
  method ParseStep(line: array<char>, from: nat, len: nat, pos: nat, args: seq<string>)
    returns (done: bool, pos': nat, args': seq<string>, eol: nat)
    requires pos < len && from + len <= line.Length
    modifies line
    ensures Turn(old(line[from..from + len]), pos, args, done, pos', args', eol, line[from..from + len])
    ensures line[..from] == old(line[..from]) && line[from + len..] == old(line[from + len..])
  {
    ghost var s := line[from..from + len];
    done, pos', args', eol := false, pos, args, 0;
    var c := line[from + pos];
    assert c == s[pos];
    if c == '\n' || c == ';' {
      done, eol := true, pos;
    } else if c == '\\' {
      done, pos' := EscapeStep(line, from, len, pos, args);
    } else if c == ' ' || c == '\t' {
      pos' := pos + 1;
    } else if c == '\r' {
      line[from + pos] := ' ';
      assert line[from..from + len] == s[pos := ' '];
      pos' := pos + 1;
    } else if c == '#' {
      done, pos', eol := CommentStep(line, from, len, pos, args);
    } else if c == '\'' || c == '"' {
      done, pos', args' := QuoteStep(line, from, len, pos, args);
    } else {
      pos', args' := BareStep(line, from, len, pos, args);
    }
  }

  /** The backslash case: it becomes a space, and so does a newline right after it. */
  method EscapeStep(line: array<char>, from: nat, len: nat, pos: nat, args: seq<string>)
    returns (done: bool, pos': nat)
    requires pos < len && from + len <= line.Length && line[from + pos] == '\\'
    modifies line
    ensures Turn(old(line[from..from + len]), pos, args, done, pos', args, 0, line[from..from + len])
    ensures line[..from] == old(line[..from]) && line[from + len..] == old(line[from + len..])
  {
    ghost var s := line[from..from + len];
    assert s[pos] == '\\';
    line[from + pos] := ' ';
    assert line[from..from + len] == s[pos := ' '];
    done, pos' := false, pos + 1;
    if pos + 1 == len {
      done := true;
      return;
    }
    assert s[pos + 1] == line[from + pos + 1];
    if line[from + pos + 1] == '\n' {
      line[from + pos + 1] := ' ';
      assert line[from..from + len] == s[pos := ' '][pos + 1 := ' '];
    }
  }

  /** The `#` case: skip to the end of the line, and past it when there is one. */
  method CommentStep(line: array<char>, from: nat, len: nat, pos: nat, args: seq<string>)
    returns (done: bool, pos': nat, eol: nat)
    requires pos < len && from + len <= line.Length && line[from + pos] == '#'
    ensures Turn(line[from..from + len], pos, args, done, pos', args, eol, line[from..from + len])
  {
    ghost var s := line[from..from + len];
    assert s[pos] == '#';
    done, eol := false, 0;
    pos' := FindFrom(line, from, len, pos, LineEnd);
    if pos' >= len {
      done, eol := true, pos';
      return;
    }
    pos' := pos' + 1;
  }

  /** The quote cases: the token runs from after the quote to the matching quote. */
  method QuoteStep(line: array<char>, from: nat, len: nat, pos: nat, args: seq<string>)
    returns (done: bool, pos': nat, args': seq<string>)
    requires pos < len && from + len <= line.Length
    requires line[from + pos] == '\'' || line[from + pos] == '"'
    ensures Turn(line[from..from + len], pos, args, done, pos', args', 0, line[from..from + len])
  {
    ghost var s := line[from..from + len];
    var c := line[from + pos];
    assert s[pos] == c;
    done, pos', args' := true, pos, args;
    if pos + 2 > len {
      return;
    }
    var start := pos + 1;
    pos' := FindQuote(line, from, len, pos + 2, c);
    if pos' >= len {
      return;
    }
    SliceOfSlice(line[..], from, from + len, start, pos');
    assert line[from + start..from + pos'] == s[start..pos'];
    done, args' := false, args + [line[from + start..from + pos']];
    pos' := pos' + 1;
  }

  /** The default case: an unquoted token up to the next delimiter. */
  method BareStep(line: array<char>, from: nat, len: nat, pos: nat, args: seq<string>)
    returns (pos': nat, args': seq<string>)
    requires pos < len && from + len <= line.Length
    requires !IsDelim(line[from + pos]) && line[from + pos] != '\'' && line[from + pos] != '"'
    ensures Turn(line[from..from + len], pos, args, false, pos', args', 0, line[from..from + len])
  {
    ghost var s := line[from..from + len];
    assert s[pos] == line[from + pos];
    var start := pos;
    pos' := FindFrom(line, from, len, pos + 1, Delimiter);
    SliceOfSlice(line[..], from, from + len, start, pos');
    assert line[from + start..from + pos'] == s[start..pos'];
    args' := args + [line[from + start..from + pos']];
  }

  /**
   * The scanning loop so far: before it stops, scanning on from `pos`
   * with the tokens found gives the result for the original string; once
   * it stops, the tokens and `eol` it stopped with are that result.
   */
  ghost predicate ParsedSoFar(goal: Scan, t: seq<char>, pos: nat, args: seq<string>, done: bool, eol: nat)
  {
    pos <= |t| &&
    (!done ==> ScanFrom(t, pos, args) == goal) &&
    (done ==> Scan(args, eol, t) == goal)
  }

  /** One turn of the scanning loop keeps `ParsedSoFar`. */
  lemma ParseAdvance(goal: Scan, s: seq<char>, pos: nat, args: seq<string>,
                     done: bool, pos': nat, args': seq<string>, eol: nat, t: seq<char>)
    requires pos < |s| == |t| && ParsedSoFar(goal, s, pos, args, false, 0)
    requires Turn(s, pos, args, done, pos', args', eol, t)
    ensures done ==> ParsedSoFar(goal, t, pos, args', true, eol)
    ensures !done ==> ParsedSoFar(goal, t, pos', args', false, 0)
  {
    TurnScan(s, pos, args, done, pos', args', eol, t);
  }

  /** One turn of the scanning loop of `odbcshell_parse_line`, as the loop sees it. */
  method ParseTurn(line: array<char>, from: nat, len: nat, pos: nat, args: seq<string>, ghost goal: Scan)
    returns (done: bool, pos': nat, args': seq<string>, eol: nat)
    requires pos < len && from + len <= line.Length
    requires ParsedSoFar(goal, line[from..from + len], pos, args, false, 0)
    modifies line
    ensures done ==> ParsedSoFar(goal, line[from..from + len], pos, args', true, eol)
    ensures !done ==> pos < pos' && ParsedSoFar(goal, line[from..from + len], pos', args', false, 0)
    ensures line[..from] == old(line[..from]) && line[from + len..] == old(line[from + len..])
  {
    ghost var cur := line[from..from + len];
    done, pos', args', eol := ParseStep(line, from, len, pos, args);
    ParseAdvance(goal, cur, pos, args, done, pos', args', eol, line[from..from + len]);
  }

  /** When the loop has stopped, its tokens, `eol` and the rewritten characters are the scan of the original. */
  lemma ParsedLine(before: seq<char>, after: seq<char>, from: nat, len: nat, args: seq<string>, eol: nat)
    requires from + len <= |before| == |after|
    requires after[..from] == before[..from] && after[from + len..] == before[from + len..]
    requires Scan(args, eol, after[from..from + len]) == Parse(before[from..from + len])
    ensures var r := Parse(before[from..from + len]);
            args == r.args && eol == r.eol && after == before[..from] + r.buf + before[from + len..]
  {
    assert after == after[..from] + after[from..from + len] + after[from + len..];
  }

  /** Running off the end of the string stops with `eol` at its length. */
  lemma ParseEnd(goal: Scan, t: seq<char>, args: seq<string>)
    requires ParsedSoFar(goal, t, |t|, args, false, 0)
    ensures goal == Scan(args, |t|, t)
  {
  }

  /** The scanning loop of `odbcshell_parse_line` over the `len` characters at `from`, which it rewrites in place. */
  method ScanLine(line: array<char>, from: nat, len: nat, ghost goal: Scan) returns (args: seq<string>, eol: nat)
    requires from + len <= line.Length && ParsedSoFar(goal, line[from..from + len], 0, [], false, 0)
    modifies line
    ensures Scan(args, eol, line[from..from + len]) == goal
    ensures line[..from] == old(line[..from]) && line[from + len..] == old(line[from + len..])
  {
    args, eol := [], 0;
    var pos, done := 0, false;
    while pos < len && !done
      invariant pos <= len
      invariant line[..from] == old(line[..from]) && line[from + len..] == old(line[from + len..])
      invariant ParsedSoFar(goal, line[from..from + len], pos, args, done, eol)
      decreases len - pos, !done
    {
      var pos', args', eol';
      done, pos', args', eol' := ParseTurn(line, from, len, pos, args, goal);
      if done {
        args, eol := args', eol';
      } else {
        pos, args := pos', args';
      }
    }
    if !done {
      eol := pos;
      ParseEnd(goal, line[from..from + len], args);
    }
  }

  /**
   * `odbcshell_parse_line(&line[from], ...)`: tokens and `eol` of the statement
   * starting at `from`; the characters up to the NUL are rewritten in place,
   * everything else in the array is left alone.
   */
  method ParseLine(line: array<char>, from: nat) returns (args: seq<string>, eol: nat)
    requires from <= line.Length
    modifies line
    ensures var len := StrLen(old(line[from..]));
            var r := Parse(old(line[from..from + len]));
            args == r.args && eol == r.eol &&
            line[..] == old(line[..from]) + r.buf + old(line[from + len..])
  {
    var len := StrLen(line[from..]);
    ghost var before := line[..];
    args, eol := ScanLine(line, from, len, Parse(line[from..from + len]));
    ParsedLine(before, line[..], from, len, args, eol);
  }



  // ---------------------------------------------------------------------------
  // What the scan does to the caller's buffer and where it stops
  // ---------------------------------------------------------------------------

  lemma {:induction false} RewritesToTransitive(a: seq<char>, b: seq<char>, c: seq<char>)
    requires RewritesTo(a, b) && RewritesTo(b, c)
    ensures RewritesTo(a, c)
  {
    forall i | 0 <= i < |a| ensures c[i] == a[i] || (c[i] == ' ' && IsRewritable(a[i])) {
      assert b[i] == a[i] || (b[i] == ' ' && IsRewritable(a[i]));
    }
  }

  /**
   * The only writes are spaces over backslashes, carriage returns and newlines;
   * and a statement that ends somewhere other than 0 or the end of the string
   * ends on a `;` or `\n` that the scan left in place.
   */
  lemma {:induction false} ScanFacts(s: seq<char>, pos: nat, args: seq<string>)
    requires pos <= |s|
    ensures RewritesTo(s, ScanFrom(s, pos, args).buf)
    ensures var r := ScanFrom(s, pos, args);
            0 < r.eol < |s| ==> r.buf[r.eol] == s[r.eol] && (s[r.eol] == ';' || s[r.eol] == '\n')
    decreases |s| - pos
  {
    if pos < |s| {
      match StepAt(s, pos, args)
      case Stop(r) =>
      case Next(s', pos', args') =>
        assert RewritesTo(s, s');
        ScanFacts(s', pos', args');
        RewritesToTransitive(s, s', ScanFrom(s', pos', args').buf);
    }
  }

  // ---------------------------------------------------------------------------
  // Round trip: words written out with single spaces are scanned back
  // ---------------------------------------------------------------------------

  /** A word as a user types it: bare, or between two identical quotes. */
  datatype Word = Bare(text: string) | Quoted(quote: char, text: string)

  /**
   * A bare word does not start with a quote and holds no delimiter (nor NUL,
   * which ends the string); a quoted word has a non-empty body free of its own quote.
   */
  predicate WellFormed(w: Word)
  {
    match w
    case Bare(t) =>
      |t| > 0 && t[0] != '\'' && t[0] != '"' &&
      forall i :: 0 <= i < |t| ==> !IsDelim(t[i]) && t[i] != '\0'
    case Quoted(q, t) =>
      (q == '\'' || q == '"') && |t| > 0 &&
      forall i :: 0 <= i < |t| ==> t[i] != q && t[i] != '\0'
  }

  function Render(w: Word): string
  {
    match w
    case Bare(t) => t
    case Quoted(q, t) => [q] + t + [q]
  }

  /** The words rendered and separated by single spaces. */
  function Words(ws: seq<Word>): string
  {
    if |ws| == 0 then []
    else if |ws| == 1 then Render(ws[0])
    else Render(ws[0]) + " " + Words(ws[1..])
  }

  function Values(ws: seq<Word>): (vs: seq<string>)
    ensures |vs| == |ws| && forall i :: 0 <= i < |ws| ==> vs[i] == ws[i].text
  {
    seq(|ws|, i requires 0 <= i < |ws| => ws[i].text)
  }

  /** `s` holds `t` at `pos`, followed by the end of the string or a token delimiter. */
  predicate PlacedAt(s: seq<char>, pos: nat, t: string)
  {
    pos + |t| <= |s| && (forall i :: 0 <= i < |t| ==> s[pos + i] == t[i]) &&
    (pos + |t| == |s| || IsDelim(s[pos + |t|]))
  }

  /** `SkipTo` lands on the first character `u` looks for. */
  lemma {:induction false} SkipToAt(s: seq<char>, i: nat, u: Until, j: nat)
    requires i <= j <= |s|
    requires forall k :: i <= k < j ==> !Ends(u, s[k])
    requires j == |s| || Ends(u, s[j])
    ensures SkipTo(s, i, u) == j
    decreases j - i
  {
    if i < j {
      SkipToAt(s, i + 1, u, j);
    }
  }

  /** `SkipPast` lands on the first occurrence of the quote, or the end. */
  lemma {:induction false} SkipPastAt(s: seq<char>, i: nat, q: char, j: nat)
    requires i <= j <= |s| && (j == |s| || s[j] == q)
    requires forall k :: i <= k < j ==> s[k] != q
    ensures SkipPast(s, i, q) == j
    decreases j - i
  {
    if i < j {
      SkipPastAt(s, i + 1, q, j);
    }
  }

  /** An unquoted token is the longest run of non-delimiters from `pos`; quotes inside it are kept. */
  lemma {:induction false} TokenTurn(s: seq<char>, pos: nat, args: seq<string>, j: nat)
    requires pos < j <= |s| && !IsDelim(s[pos]) && s[pos] != '\'' && s[pos] != '"'
    requires forall k :: pos < k < j ==> !IsDelim(s[k])
    requires j == |s| || IsDelim(s[j])
    ensures StepAt(s, pos, args) == Next(s, j, args + [s[pos..j]])
  {
    SkipToAt(s, pos + 1, Delimiter, j);
  }

  /**
   * A quoted token is the text between the quote at `pos` and the next
   * identical quote, looked for from `pos + 2` on.
   */
  lemma {:induction false} QuotedTokenTurn(s: seq<char>, pos: nat, args: seq<string>, j: nat)
    requires pos + 2 <= j < |s| && (s[pos] == '\'' || s[pos] == '"') && s[j] == s[pos]
    requires forall k :: pos + 2 <= k < j ==> s[k] != s[pos]
    ensures StepAt(s, pos, args) == Next(s, j + 1, args + [s[pos + 1..j]])
  {
    SkipPastAt(s, pos + 2, s[pos], j);
  }

  /** A quote with no identical quote after it ends the scan asking for more input. */
  lemma {:induction false} UnclosedQuoteTurn(s: seq<char>, pos: nat, args: seq<string>)
    requires pos < |s| && (s[pos] == '\'' || s[pos] == '"')
    requires forall k :: pos + 2 <= k < |s| ==> s[k] != s[pos]
    ensures StepAt(s, pos, args) == Stop(Scan(args, 0, s))
  {
    if pos + 2 <= |s| {
      SkipPastAt(s, pos + 2, s[pos], |s|);
    }
  }

  /**
   * A comment runs to the next line end, which is stepped over, so the
   * statement goes on; a comment that runs to the end of the string ends the
   * statement there.
   */
  lemma {:induction false} CommentTurn(s: seq<char>, pos: nat, args: seq<string>, j: nat)
    requires pos < j <= |s| && s[pos] == '#'
    requires forall k :: pos < k < j ==> !IsLineEnd(s[k])
    requires j == |s| || IsLineEnd(s[j])
    ensures j < |s| ==> StepAt(s, pos, args) == Next(s, j + 1, args)
    ensures j == |s| ==> StepAt(s, pos, args) == Stop(Scan(args, |s|, s))
  {
    SkipToAt(s, pos, LineEnd, j);
  }

  /** A bare word is one turn of the loop, which yields the word. */
  lemma {:induction false} BareWordTurn(s: seq<char>, pos: nat, t: string, args: seq<string>)
    requires WellFormed(Bare(t)) && PlacedAt(s, pos, t)
    ensures pos < |s| && StepAt(s, pos, args) == Next(s, pos + |t|, args + [t])
  {
    var n := |t|;
    forall k | pos <= k < pos + n ensures s[k] == t[k - pos] {
      assert s[pos + (k - pos)] == t[k - pos];
    }
    TokenTurn(s, pos, args, pos + n);
    assert s[pos..pos + n] == t;
  }

  /** A quoted word is one turn of the loop, which yields the text between the quotes. */
  lemma {:induction false} QuotedWordTurn(s: seq<char>, pos: nat, q: char, t: string, args: seq<string>)
    requires WellFormed(Quoted(q, t)) && PlacedAt(s, pos, [q] + t + [q])
    ensures pos < |s| && StepAt(s, pos, args) == Next(s, pos + |t| + 2, args + [t])
  {
    var r := [q] + t + [q];
    var n := |r|;
    forall k | pos <= k < pos + n ensures s[k] == r[k - pos] {
      assert s[pos + (k - pos)] == r[k - pos];
    }
    forall k | pos + 1 <= k < pos + 1 + |t| ensures s[k] == t[k - pos - 1] {
      assert r[k - pos] == t[k - pos - 1];
    }
    assert s[pos] == r[0];
    assert s[pos + 1 + |t|] == r[1 + |t|];
    QuotedTokenTurn(s, pos, args, pos + 1 + |t|);
    assert s[pos + 1..pos + 1 + |t|] == t;
  }

  /** One word is one turn of the loop, which yields exactly the word's text. */
  lemma {:induction false} WordTurn(s: seq<char>, pos: nat, w: Word, args: seq<string>)
    requires WellFormed(w) && PlacedAt(s, pos, Render(w))
    ensures pos < |s| && StepAt(s, pos, args) == Next(s, pos + |Render(w)|, args + [w.text])
  {
    match w
    case Bare(t) => BareWordTurn(s, pos, t, args);
    case Quoted(q, t) => QuotedWordTurn(s, pos, q, t, args);
  }

  /** A word and the space after it are two turns that keep the characters. */
  lemma {:induction false} WordAndSpaceMove(s: seq<char>, pos: nat, w: Word, args: seq<string>)
    requires WellFormed(w) && PlacedAt(s, pos, Render(w))
    requires pos + |Render(w)| < |s| && s[pos + |Render(w)|] == ' '
    ensures Moves(s, pos, args, pos + |Render(w)| + 1, args + [w.text])
  {
    var n, args' := |Render(w)|, args + [w.text];
    WordTurn(s, pos, w, args);
    MovesOne(s, pos, args, pos + n, args');
    assert StepAt(s, pos + n, args') == Next(s, pos + n + 1, args');
    MovesOne(s, pos + n, args', pos + n + 1, args');
    MovesTrans(s, pos, args, pos + n, args', pos + n + 1, args');
  }

  /** Text placed at `pos` splits at a space into the part before and the part after it. */
  lemma {:induction false} PlacedSplit(s: seq<char>, pos: nat, r: string, rest: string)
    requires PlacedAt(s, pos, r + " " + rest)
    ensures PlacedAt(s, pos, r) && s[pos + |r|] == ' ' && PlacedAt(s, pos + |r| + 1, rest)
  {
    var w := r + " " + rest;
    forall i | 0 <= i < |r| ensures s[pos + i] == r[i] {
      assert w[i] == r[i];
    }
    assert s[pos + |r|] == w[|r|];
    forall i | 0 <= i < |rest| ensures s[pos + |r| + 1 + i] == rest[i] {
      assert s[pos + (|r| + 1 + i)] == w[|r| + 1 + i] == rest[i];
    }
  }

  /** The first word, the separating space, and the remaining words, each in place. */
  lemma {:induction false} WordsSplit(s: seq<char>, pos: nat, ws: seq<Word>)
    requires |ws| > 1 && PlacedAt(s, pos, Words(ws))
    ensures var r, rest := Render(ws[0]), Words(ws[1..]);
            |Words(ws)| == |r| + 1 + |rest| &&
            PlacedAt(s, pos, r) && s[pos + |r|] == ' ' && PlacedAt(s, pos + |r| + 1, rest)
  {
    PlacedSplit(s, pos, Render(ws[0]), Words(ws[1..]));
  }

  /**
   * Scanning the written-out words from `pos` collects their texts in order
   * and arrives just past the last one (`end`), without rewriting anything.
   */
  lemma {:induction false} WordsMove(s: seq<char>, pos: nat, ws: seq<Word>, args: seq<string>, end: nat, res: seq<string>)
    requires forall i :: 0 <= i < |ws| ==> WellFormed(ws[i])
    requires PlacedAt(s, pos, Words(ws))
    requires end == pos + |Words(ws)| && res == args + Values(ws)
    ensures Moves(s, pos, args, end, res)
    decreases |ws|, 1
  {
    if |ws| == 0 {
      assert res == args;
    } else if |ws| == 1 {
      assert end == pos + |Render(ws[0])|;
      assert res == args + [ws[0].text];
      WordTurn(s, pos, ws[0], args);
      MovesOne(s, pos, args, end, res);
    } else {
      MoreWordsMove(s, pos, ws, args, end, res);
    }
  }

  /** The first of several words and the space after it, leaving the others in place. */
  lemma {:induction false} HeadMove(s: seq<char>, pos: nat, ws: seq<Word>, args: seq<string>)
    requires |ws| > 1 && WellFormed(ws[0]) && PlacedAt(s, pos, Words(ws))
    ensures var p1 := pos + |Render(ws[0])| + 1;
            p1 + |Words(ws[1..])| == pos + |Words(ws)| &&
            PlacedAt(s, p1, Words(ws[1..])) && Moves(s, pos, args, p1, args + [ws[0].text])
  {
    WordsSplit(s, pos, ws);
    WordAndSpaceMove(s, pos, ws[0], args);
  }

  /** `WordsMove` for two words or more: the first word and its space, then the rest. */
  lemma {:induction false} MoreWordsMove(s: seq<char>, pos: nat, ws: seq<Word>, args: seq<string>, end: nat, res: seq<string>)
    requires |ws| > 1 && forall i :: 0 <= i < |ws| ==> WellFormed(ws[i])
    requires PlacedAt(s, pos, Words(ws))
    requires end == pos + |Words(ws)| && res == args + Values(ws)
    ensures Moves(s, pos, args, end, res)
    decreases |ws|, 0
  {
    var rest := ws[1..];
    var p1, args1 := pos + |Render(ws[0])| + 1, args + [ws[0].text];
    HeadMove(s, pos, ws, args);
    assert res == args1 + Values(rest);
    assert forall i :: 0 <= i < |rest| ==> WellFormed(rest[i]);
    WordsMove(s, p1, rest, args1, end, res);
    MovesTrans(s, pos, args, p1, args1, end, res);
  }

  /** Text written out after any text `a` and before a delimiter is placed at `|a|`. */
  lemma {:induction false} PlacedInfix(a: string, w: string, x: string)
    requires |x| == 0 || IsDelim(x[0])
    ensures PlacedAt(a + w + x, |a|, w)
  {
    var s := a + w + x;
    forall i | 0 <= i < |w| ensures s[|a| + i] == w[i] {
    }
    assert |a| + |w| == |s| || s[|a| + |w|] == x[0];
  }

  /** A run of spaces and tabs, as may stand before, between and after words. */
  predicate IsGap(g: string)
  {
    forall i :: 0 <= i < |g| ==> g[i] == ' ' || g[i] == '\t'
  }

  /** The words rendered, each followed by its own run of blanks: `gaps[i]` after `ws[i]`. */
  function Spaced(ws: seq<Word>, gaps: seq<string>): string
    requires |gaps| == |ws|
  {
    if |ws| == 0 then [] else Render(ws[0]) + gaps[0] + Spaced(ws[1..], gaps[1..])
  }

  /** Well-formed words, blank runs, and a non-empty run between any two words. */
  predicate Separated(ws: seq<Word>, gaps: seq<string>)
  {
    |gaps| == |ws| &&
    (forall i :: 0 <= i < |ws| ==> WellFormed(ws[i]) && IsGap(gaps[i])) &&
    (forall i :: 0 <= i < |ws| - 1 ==> |gaps[i]| > 0)
  }

  /**
   * Text placed at `pos` that is the concatenation `a + b`: the characters of
   * `a` are there, `b` is placed after them, and `a` itself is placed when `b`
   * is empty or starts with a delimiter.
   */
  lemma {:induction false} PlacedCat(s: seq<char>, pos: nat, a: string, b: string)
    requires PlacedAt(s, pos, a + b)
    ensures pos + |a| <= |s| && (forall i :: 0 <= i < |a| ==> s[pos + i] == a[i])
    ensures PlacedAt(s, pos + |a|, b)
    ensures |b| == 0 || IsDelim(b[0]) ==> PlacedAt(s, pos, a)
  {
    var w := a + b;
    forall i | 0 <= i < |a| ensures s[pos + i] == a[i] {
      assert w[i] == a[i];
    }
    forall i | 0 <= i < |b| ensures s[pos + |a| + i] == b[i] {
      assert s[pos + (|a| + i)] == w[|a| + i] == b[i];
    }
    if |b| > 0 {
      assert s[pos + |a|] == w[|a|] == b[0];
    }
  }

  /** Blanks from `pos` to `end` are skipped one per turn, with nothing kept or rewritten. */
  lemma {:induction false} BlanksMove(s: seq<char>, pos: nat, end: nat, args: seq<string>)
    requires pos <= end <= |s| && forall k :: pos <= k < end ==> s[k] == ' ' || s[k] == '\t'
    ensures Moves(s, pos, args, end, args)
    decreases end - pos
  {
    if pos < end {
      BlankMove(s, pos, args);
      BlanksMove(s, pos + 1, end, args);
      MovesTrans(s, pos, args, pos + 1, args, end, args);
    }
  }

  /**
   * Text `r`, a run of blanks `g` and text `rest`, placed together: each part is
   * in place, provided the run is not empty or nothing follows it.
   */
  lemma {:induction false} GapSplit(s: seq<char>, pos: nat, r: string, g: string, rest: string)
    requires PlacedAt(s, pos, r + (g + rest)) && IsGap(g) && (|g| > 0 || |rest| == 0)
    ensures PlacedAt(s, pos, r) && pos + |r| + |g| <= |s| &&
            (forall k :: pos + |r| <= k < pos + |r| + |g| ==> s[k] == ' ' || s[k] == '\t') &&
            PlacedAt(s, pos + |r| + |g|, rest)
  {
    if |g| > 0 {
      assert (g + rest)[0] == g[0];
    } else {
      assert g + rest == [];
    }
    PlacedCat(s, pos, r, g + rest);
    PlacedCat(s, pos + |r|, g, rest);
    forall k | pos + |r| <= k < pos + |r| + |g| ensures s[k] == ' ' || s[k] == '\t' {
      assert s[pos + |r| + (k - pos - |r|)] == g[k - pos - |r|];
    }
  }

  /** The words after the first are separated too. */
  lemma {:induction false} SeparatedTail(ws: seq<Word>, gaps: seq<string>)
    requires |ws| > 0 && Separated(ws, gaps)
    ensures WellFormed(ws[0]) && IsGap(gaps[0]) && (|gaps[0]| > 0 || |ws| == 1)
    ensures Separated(ws[1..], gaps[1..])
  {
  }

  /** The first word, its blanks, and the remaining words; nothing follows the last word's blanks. */
  lemma {:induction false} SpacedCons(ws: seq<Word>, gaps: seq<string>)
    requires 0 < |ws| == |gaps|
    ensures Spaced(ws, gaps) == Render(ws[0]) + (gaps[0] + Spaced(ws[1..], gaps[1..]))
    ensures |ws| == 1 ==> Spaced(ws[1..], gaps[1..]) == []
  {
  }

  /** The first word `r`, the blanks `g` after it, and the remaining words `rest`, each in place. */
  lemma {:induction false} SpacedSplit(s: seq<char>, pos: nat, ws: seq<Word>, gaps: seq<string>,
                                       r: string, g: string, rest: string)
    requires 0 < |ws| == |gaps| && IsGap(gaps[0]) && (|gaps[0]| > 0 || |ws| == 1)
    requires r == Render(ws[0]) && g == gaps[0] && rest == Spaced(ws[1..], gaps[1..])
    requires PlacedAt(s, pos, Spaced(ws, gaps))
    ensures |Spaced(ws, gaps)| == |r| + |g| + |rest|
    ensures PlacedAt(s, pos, r) && PlacedAt(s, pos + |r| + |g|, rest)
    ensures forall k :: pos + |r| <= k < pos + |r| + |g| ==> s[k] == ' ' || s[k] == '\t'
  {
    SpacedCons(ws, gaps);
    GapSplit(s, pos, r, g, rest);
  }

  /** A word and the blanks after it, up to `p1`, are turns that yield the word's text. */
  lemma {:induction false} WordGapMove(s: seq<char>, pos: nat, w: Word, p1: nat, args: seq<string>)
    requires WellFormed(w) && PlacedAt(s, pos, Render(w)) && pos + |Render(w)| <= p1 <= |s|
    requires forall k :: pos + |Render(w)| <= k < p1 ==> s[k] == ' ' || s[k] == '\t'
    ensures Moves(s, pos, args, p1, args + [w.text])
  {
    var p0, args1 := pos + |Render(w)|, args + [w.text];
    WordTurn(s, pos, w, args);
    MovesOne(s, pos, args, p0, args1);
    BlanksMove(s, p0, p1, args1);
    MovesTrans(s, pos, args, p0, args1, p1, args1);
  }

  /** The texts of several words: the first word's text, then the others'. */
  lemma {:induction false} ValuesCons(ws: seq<Word>, args: seq<string>)
    requires |ws| > 0
    ensures args + Values(ws) == args + [ws[0].text] + Values(ws[1..])
  {
    assert Values(ws) == [ws[0].text] + Values(ws[1..]);
  }

  /**
   * The first word `r` and its blanks `g` take the scan to `p1` with the
   * word's text added; the remaining words `rest` are placed there.
   */
  lemma {:induction false} SpacedHead(s: seq<char>, pos: nat, ws: seq<Word>, gaps: seq<string>, args: seq<string>,
                                      r: string, g: string, rest: string, p1: nat, args1: seq<string>)
    requires 0 < |ws| && Separated(ws, gaps) && PlacedAt(s, pos, Spaced(ws, gaps))
    requires r == Render(ws[0]) && g == gaps[0] && rest == Spaced(ws[1..], gaps[1..])
    requires p1 == pos + |r| + |g| && args1 == args + [ws[0].text]
    ensures Separated(ws[1..], gaps[1..]) && PlacedAt(s, p1, rest)
    ensures p1 + |rest| == pos + |Spaced(ws, gaps)| && args1 + Values(ws[1..]) == args + Values(ws)
    ensures Moves(s, pos, args, p1, args1)
  {
    SeparatedTail(ws, gaps);
    SpacedSplit(s, pos, ws, gaps, r, g, rest);
    WordGapMove(s, pos, ws[0], p1, args);
    ValuesCons(ws, args);
  }

  /**
   * Scanning words separated by runs of blanks from `pos` collects their texts
   * in order and arrives just past the blanks after the last one.
   */
  lemma {:induction false} SpacedMove(s: seq<char>, pos: nat, ws: seq<Word>, gaps: seq<string>,
                                      args: seq<string>, end: nat, res: seq<string>)
    requires Separated(ws, gaps) && PlacedAt(s, pos, Spaced(ws, gaps))
    requires end == pos + |Spaced(ws, gaps)| && res == args + Values(ws)
    ensures Moves(s, pos, args, end, res)
    decreases |ws|
  {
    if |ws| == 0 {
      assert res == args;
    } else {
      var r, g, rest := Render(ws[0]), gaps[0], Spaced(ws[1..], gaps[1..]);
      var p1, args1 := pos + |r| + |g|, args + [ws[0].text];
      SpacedHead(s, pos, ws, gaps, args, r, g, rest, p1, args1);
      SpacedMove(s, p1, ws[1..], gaps[1..], args1, end, res);
      MovesTrans(s, pos, args, p1, args1, end, res);
    }
  }


  // ---------------------------------------------------------------------------
  // Whole statements
  // ---------------------------------------------------------------------------

  /**
   * Words followed by `;` or a newline: exactly their texts, `eol` at the
   * terminator, and nothing rewritten, whatever comes after it.
   */
  lemma {:induction false} ParseStatement(ws: seq<Word>, t: char, rest: string)
    requires forall i :: 0 <= i < |ws| ==> WellFormed(ws[i])
    requires t == ';' || t == '\n'
    ensures var s := Words(ws) + [t] + rest;
            Parse(s) == Scan(Values(ws), |Words(ws)|, s)
  {
    var w, v := Words(ws), Values(ws);
    var s, n := w + [t] + rest, |w|;
    assert w + ([t] + rest) == s;
    WordsLeadScan(ws, [t] + rest);
    assert s[n] == t;
    ScanStop(s, n, v);
  }

  /** `cmd arg1 arg2;` gives the three tokens and `eol` 13. */
  lemma {:induction false} ParseExample()
    ensures Parse("cmd arg1 arg2;") == Scan(["cmd", "arg1", "arg2"], 13, "cmd arg1 arg2;")
  {
    var ws := [Bare("cmd"), Bare("arg1"), Bare("arg2")];
    assert Words(ws[2..]) == "arg2";
    assert Words(ws[1..]) == "arg1 arg2";
    assert Words(ws) == "cmd arg1 arg2";
    assert Values(ws) == ["cmd", "arg1", "arg2"];
    var s := Words(ws) + [';'] + "";
    assert s == "cmd arg1 arg2;";
    ParseStatement(ws, ';', "");
  }

  /**
   * Blanks, then words separated by runs of spaces and tabs (and perhaps
   * followed by some), then `;` or a newline: exactly the words' texts, `eol`
   * at the terminator, and nothing rewritten, whatever comes after it.
   */
  lemma {:induction false} ParseSpacedStatement(lead: string, ws: seq<Word>, gaps: seq<string>, t: char, rest: string)
    requires IsGap(lead) && Separated(ws, gaps)
    requires t == ';' || t == '\n'
    ensures var w := lead + Spaced(ws, gaps);
            var s := w + [t] + rest;
            Parse(s) == Scan(Values(ws), |w|, s)
  {
    var sp, v := Spaced(ws, gaps), Values(ws);
    var s, n := lead + sp + [t] + rest, |lead| + |sp|;
    assert lead + sp + ([t] + rest) == s;
    PlacedInfix(lead, sp, [t] + rest);
    forall k | 0 <= k < |lead| ensures s[k] == ' ' || s[k] == '\t' {
      assert s[k] == lead[k];
    }
    BlanksMove(s, 0, |lead|, []);
    assert [] + v == v;
    SpacedMove(s, |lead|, ws, gaps, [], n, v);
    MovesTrans(s, 0, [], |lead|, [], n, v);
    MovesScan(s, 0, [], n, v);
    assert s[n] == t;
    ScanStop(s, n, v);
  }

  /** The words of `set  'a;b'<tab>c`, laid out with their blank runs. */
  lemma {:induction false} SpacedExampleLayout()
    ensures Spaced([Bare("set"), Quoted('\'', "a;b"), Bare("c")], ["  ", "\t", ""]) == "set  'a;b'\tc"
  {
    var ws, gaps := [Bare("set"), Quoted('\'', "a;b"), Bare("c")], ["  ", "\t", ""];
    assert Spaced(ws[2..], gaps[2..]) == "c";
    assert Spaced(ws[1..], gaps[1..]) == "'a;b'\tc";
  }

  /** The words of `set  'a;b'<tab>c` are well formed and separated, and their texts are `set`, `a;b`, `c`. */
  lemma {:induction false} SpacedExampleWords()
    ensures Separated([Bare("set"), Quoted('\'', "a;b"), Bare("c")], ["  ", "\t", ""])
    ensures Values([Bare("set"), Quoted('\'', "a;b"), Bare("c")]) == ["set", "a;b", "c"]
  {
    var ws := [Bare("set"), Quoted('\'', "a;b"), Bare("c")];
    assert WellFormed(ws[0]) && WellFormed(ws[1]) && WellFormed(ws[2]);
  }

  /** `set  'a;b'<tab>c;` gives `set`, `a;b`, `c` and `eol` 12: the quoted `;` does not end it. */
  lemma {:induction false} ParseSpacedExample()
    ensures Parse("set  'a;b'\tc;") == Scan(["set", "a;b", "c"], 12, "set  'a;b'\tc;")
  {
    var ws, gaps := [Bare("set"), Quoted('\'', "a;b"), Bare("c")], ["  ", "\t", ""];
    SpacedExampleLayout();
    SpacedExampleWords();
    assert "" + Spaced(ws, gaps) + [';'] + "" == "set  'a;b'\tc;";
    ParseSpacedStatement("", ws, gaps, ';', "");
  }

  /** Words and no terminator: the statement ends at the end of the string. */
  lemma {:induction false} ParseToEnd(ws: seq<Word>)
    requires forall i :: 0 <= i < |ws| ==> WellFormed(ws[i])
    ensures var s := Words(ws);
            Parse(s) == Scan(Values(ws), |s|, s)
  {
    var s := Words(ws);
    PlacedInfix("", s, "");
    assert "" + s + "" == s;
    WordsMove(s, 0, ws, [], |s|, Values(ws));
    MovesScan(s, 0, [], |s|, Values(ws));
  }

  /**
   * Words and then a backslash at the very end: more input is needed (`eol`
   * 0), the words are already tokens and the backslash is now a space.
   */
  lemma {:induction false} ParseTrailingBackslash(ws: seq<Word>)
    requires forall i :: 0 <= i < |ws| ==> WellFormed(ws[i])
    ensures var s := Words(ws) + "\\";
            Parse(s) == Scan(Values(ws), 0, Words(ws) + " ")
  {
    var s, n := Words(ws) + "\\", |Words(ws)|;
    PlacedInfix("", Words(ws), "\\");
    assert "" + Words(ws) + "\\" == s;
    WordsMove(s, 0, ws, [], n, Values(ws));
    MovesScan(s, 0, [], n, Values(ws));
    assert s[n := ' '] == Words(ws) + " ";
    ScanStop(s, n, Values(ws));
  }

  /** A blank keeps the characters and moves one on. */
  lemma {:induction false} BlankMove(s: seq<char>, pos: nat, args: seq<string>)
    requires pos < |s| && (s[pos] == ' ' || s[pos] == '\t')
    ensures Moves(s, pos, args, pos + 1, args)
  {
    MovesOne(s, pos, args, pos + 1, args);
  }

  /**
   * Words, a space, and then a quote with no identical quote after it: more
   * input is needed, whatever the rest holds (`;` and `#` included).
   */
  lemma {:induction false} ParseUnclosedQuote(ws: seq<Word>, q: char, rest: string)
    requires forall i :: 0 <= i < |ws| ==> WellFormed(ws[i])
    requires q == '\'' || q == '"'
    requires forall i :: 0 <= i < |rest| ==> rest[i] != q
    ensures var s := Words(ws) + " " + [q] + rest;
            Parse(s) == Scan(Values(ws), 0, s)
  {
    var w, x := Words(ws), " " + [q] + rest;
    var s := w + x;
    assert Words(ws) + " " + [q] + rest == s;
    WordsBlankMove(ws, x);
    MovesScan(s, 0, [], |w| + 1, Values(ws));
    forall k | |w| + 3 <= k < |s| ensures s[k] != q {
      assert s[k] == rest[k - |w| - 2];
    }
    QuoteNeverCloses(s, |w| + 1, Values(ws));
  }

  /** A quote that no later character closes stops the scan with "need more input". */
  lemma QuoteNeverCloses(s: seq<char>, pos: nat, args: seq<string>)
    requires pos < |s| && (s[pos] == '\'' || s[pos] == '"')
    requires forall k :: pos + 2 <= k < |s| ==> s[k] != s[pos]
    ensures ScanFrom(s, pos, args) == Scan(args, 0, s)
  {
    UnclosedQuoteTurn(s, pos, args);
    ScanStop(s, pos, args);
  }


  /** Words and `;` after any prefix finish the scan with their texts added. */
  lemma {:induction false} StatementFrom(a: string, ws: seq<Word>, args: seq<string>)
    requires forall i :: 0 <= i < |ws| ==> WellFormed(ws[i])
    ensures var s := a + Words(ws) + ";";
            ScanFrom(s, |a|, args) == Scan(args + Values(ws), |a| + |Words(ws)|, s)
  {
    var w := Words(ws);
    var s, n, v := a + w + ";", |a| + |w|, args + Values(ws);
    PlacedInfix(a, w, ";");
    WordsMove(s, |a|, ws, args, n, v);
    MovesScan(s, |a|, args, n, v);
    assert ScanFrom(s, n, v) == Scan(v, n, s);
  }

  /** Two regroupings of a six-part concatenation. */
  lemma {:induction false} Regroup<T>(a: seq<T>, b: seq<T>, c: seq<T>, d: seq<T>, e: seq<T>, f: seq<T>)
    ensures a + b + c + d + e + f == a + (b + c + d + e + f)
    ensures a + b + c + d + e + f == (a + b) + c + (d + e + f)
  {
  }

  /** Words and then a blank: the loop moves past both. */
  lemma {:induction false} WordsBlankMove(ws: seq<Word>, x: string)
    requires forall i :: 0 <= i < |ws| ==> WellFormed(ws[i])
    requires |x| > 0 && x[0] == ' '
    ensures Moves(Words(ws) + x, 0, [], |Words(ws)| + 1, Values(ws))
  {
    var w, v := Words(ws), Values(ws);
    WordsLeadMove(ws, x);
    assert (w + x)[|w|] == x[0];
    BlankMove(w + x, |w|, v);
    MovesTrans(w + x, 0, [], |w|, v, |w| + 1, v);
  }

  /** A comment closed by a line end is skipped together with the line end. */
  lemma {:induction false} CommentLineMove(p: string, c: string, x: string, args: seq<string>)
    requires |p| > 0 && p[|p| - 1] == '#'
    requires forall i :: 0 <= i < |c| ==> !IsLineEnd(c[i])
    requires |x| > 0 && IsLineEnd(x[0])
    ensures Moves(p + c + x, |p| - 1, args, |p| + |c| + 1, args)
  {
    var s := p + c + x;
    forall k | |p| - 1 < k < |p| + |c| ensures !IsLineEnd(s[k]) {
      assert s[k] == c[k - |p|];
    }
    CommentTurn(s, |p| - 1, args, |p| + |c|);
    MovesOne(s, |p| - 1, args, |p| + |c| + 1, args);
  }

  /** A comment that reaches the end of the string ends the statement. */
  lemma {:induction false} CommentEndTurn(p: string, c: string, args: seq<string>)
    requires |p| > 0 && p[|p| - 1] == '#'
    requires forall i :: 0 <= i < |c| ==> !IsLineEnd(c[i])
    ensures StepAt(p + c, |p| - 1, args) == Stop(Scan(args, |p + c|, p + c))
  {
    var s := p + c;
    forall k | |p| - 1 < k < |s| ensures !IsLineEnd(s[k]) {
      assert s[k] == c[k - |p|];
    }
    CommentTurn(s, |p| - 1, args, |s|);
  }

  /**
   * A comment between two groups of words: the statement goes on past the
   * line end that closes the comment, and the tokens of both groups are kept.
   */
  lemma {:induction false} ParseCommentContinues(ws1: seq<Word>, c: string, ws2: seq<Word>)
    requires forall i :: 0 <= i < |ws1| ==> WellFormed(ws1[i])
    requires forall i :: 0 <= i < |ws2| ==> WellFormed(ws2[i])
    requires forall i :: 0 <= i < |c| ==> !IsLineEnd(c[i])
    ensures var a := Words(ws1) + " #" + c + "\n";
            var s := a + Words(ws2) + ";";
            Parse(s) == Scan(Values(ws1) + Values(ws2), |a| + |Words(ws2)|, s)
  {
    var w1, w2 := Words(ws1), Words(ws2);
    var p := w1 + " #";
    var a := p + c + "\n";
    var s := a + w2 + ";";
    var n1, n2 := |w1|, |a| + |w2|;
    var v1, v := Values(ws1), Values(ws1) + Values(ws2);
    Regroup(w1, " #", c, "\n", w2, ";");
    WordsBlankMove(ws1, " #" + c + "\n" + w2 + ";");
    CommentLineMove(p, c, "\n" + w2 + ";", v1);
    MovesTrans(s, 0, [], n1 + 1, v1, |a|, v1);
    MovesScan(s, 0, [], |a|, v1);
    StatementFrom(a, ws2, v1);
  }

  /** A comment that runs to the end of the string ends the statement there. */
  lemma {:induction false} ParseCommentToEnd(ws: seq<Word>, c: string)
    requires forall i :: 0 <= i < |ws| ==> WellFormed(ws[i])
    requires forall i :: 0 <= i < |c| ==> !IsLineEnd(c[i])
    ensures var s := Words(ws) + " #" + c;
            Parse(s) == Scan(Values(ws), |s|, s)
  {
    var w, v := Words(ws), Values(ws);
    var p := w + " #";
    var s, n := p + c, |w|;
    assert w + (" #" + c) == s;
    WordsBlankMove(ws, " #" + c);
    CommentEndTurn(p, c, v);
    MovesScan(s, 0, [], n + 1, v);
    ScanStop(s, n + 1, v);
  }

  /** Words and then anything that starts with a delimiter: the loop moves past the words. */
  lemma {:induction false} WordsLeadMove(ws: seq<Word>, x: string)
    requires forall i :: 0 <= i < |ws| ==> WellFormed(ws[i])
    requires |x| == 0 || IsDelim(x[0])
    ensures Moves(Words(ws) + x, 0, [], |Words(ws)|, Values(ws))
  {
    var w, v := Words(ws), Values(ws);
    PlacedFirst(w, x);
    assert [] + v == v;
    WordsMove(w + x, 0, ws, [], |w|, v);
  }

  /** Text written out before a delimiter is placed at the start. */
  lemma {:induction false} PlacedFirst(w: string, x: string)
    requires |x| == 0 || IsDelim(x[0])
    ensures PlacedAt(w + x, 0, w)
  {
    var s := w + x;
    forall i | 0 <= i < |w| ensures s[0 + i] == w[i] {
    }
    assert |w| == |s| || s[|w|] == x[0];
  }

  /**
   * A backslash and a newline after text `p` both become spaces; the scan
   * goes on past them.
   */
  lemma {:induction false} EscapedNewlineScan(p: string, w: string, args: seq<string>)
    ensures var s, t := p + "\\\n" + w + ";", p + "  " + w + ";";
            ScanFrom(s, |p|, args) == ScanFrom(t, |p| + 2, args)
  {
    var s, t, n := p + "\\\n" + w + ";", p + "  " + w + ";", |p|;
    assert StepAt(s, n, args) == Next(t, n + 1, args) by {
      assert s[n] == '\\' && s[n + 1] == '\n';
      assert s[n := ' '][n + 1 := ' '] == t;
    }
    ScanTurn(s, n, args, t, n + 1, args);
    assert t[n + 1] == ' ';
    ScanTurn(t, n + 1, args, t, n + 2, args);
  }

  /** Words and then anything that starts with a delimiter: the pass reaches the end of the words. */
  lemma {:induction false} WordsLeadScan(ws: seq<Word>, x: string)
    requires forall i :: 0 <= i < |ws| ==> WellFormed(ws[i])
    requires |x| == 0 || IsDelim(x[0])
    ensures Parse(Words(ws) + x) == ScanFrom(Words(ws) + x, |Words(ws)|, Values(ws))
  {
    WordsLeadMove(ws, x);
    MovesScan(Words(ws) + x, 0, [], |Words(ws)|, Values(ws));
  }

  /** Words, then a backslash and a newline: the scan reaches past the two spaces they become. */
  lemma {:induction false} EscapedNewlineLead(ws: seq<Word>, w: string)
    requires forall i :: 0 <= i < |ws| ==> WellFormed(ws[i])
    ensures var p := Words(ws);
            Parse(p + "\\\n" + w + ";") == ScanFrom(p + "  " + w + ";", |p| + 2, Values(ws))
  {
    var p, v := Words(ws), Values(ws);
    var s := p + "\\\n" + w + ";";
    assert p + ("\\\n" + w + ";") == s;
    WordsLeadScan(ws, "\\\n" + w + ";");
    EscapedNewlineScan(p, w, v);
  }

  /**
   * A backslash right before a newline joins two lines: both become spaces
   * and the statement goes on with the words of the next line.
   */
  lemma {:induction false} ParseEscapedNewline(ws1: seq<Word>, ws2: seq<Word>)
    requires forall i :: 0 <= i < |ws1| ==> WellFormed(ws1[i])
    requires forall i :: 0 <= i < |ws2| ==> WellFormed(ws2[i])
    ensures var s := Words(ws1) + "\\\n" + Words(ws2) + ";";
            Parse(s) == Scan(Values(ws1) + Values(ws2), |s| - 1, Words(ws1) + "  " + Words(ws2) + ";")
  {
    var w1, w2 := Words(ws1), Words(ws2);
    var s, n, v1 := w1 + "\\\n" + w2 + ";", |w1|, Values(ws1);
    EscapedNewlineLead(ws1, w2);
    StatementFrom(w1 + "  ", ws2, v1);
  }

  /** A backslash before an ordinary character only becomes a space: `a\b` gives `a` and `b`. */
  lemma {:induction false} ParseEscapedChar()
    ensures Parse("a\\b") == Scan(["a", "b"], 3, "a b")
  {
    var s, t := "a\\b", "a b";
    assert s[0] == 'a' && s[1] == '\\' && s[2] == 'b';
    TokenTurn(s, 0, [], 1);
    assert s[0..1] == "a";
    ScanTurn(s, 0, [], s, 1, ["a"]);
    assert s[1 := ' '] == t;
    ScanTurn(s, 1, ["a"], t, 2, ["a"]);
    assert t[2] == 'b';
    TokenTurn(t, 2, ["a"], 3);
    assert t[2..3] == "b";
    ScanTurn(t, 2, ["a"], t, 3, ["a", "b"]);
  }

  /** An escaped `;` still ends the statement: `a\;b` gives only `a`, with `eol` 2. */
  lemma {:induction false} ParseEscapedSemicolon()
    ensures Parse("a\\;b") == Scan(["a"], 2, "a ;b")
  {
    var s, t := "a\\;b", "a ;b";
    assert s[0] == 'a' && s[1] == '\\' && s[2] == ';';
    TokenTurn(s, 0, [], 1);
    assert s[0..1] == "a";
    ScanTurn(s, 0, [], s, 1, ["a"]);
    assert s[1 := ' '] == t;
    ScanTurn(s, 1, ["a"], t, 2, ["a"]);
    assert t[2] == ';';
    ScanStop(t, 2, ["a"]);
  }

  /** A carriage return ends a token and becomes a space: `a\rb;` gives `a` and `b`, with `eol` 3. */
  lemma {:induction false} ParseCarriageReturn()
    ensures Parse("a\rb;") == Scan(["a", "b"], 3, "a b;")
  {
    var s, t := "a\rb;", "a b;";
    assert s[0] == 'a' && s[1] == '\r' && s[2] == 'b';
    TokenTurn(s, 0, [], 1);
    assert s[0..1] == "a";
    ScanTurn(s, 0, [], s, 1, ["a"]);
    assert s[1 := ' '] == t;
    ScanTurn(s, 1, ["a"], t, 2, ["a"]);
    assert t[2] == 'b' && t[3] == ';';
    TokenTurn(t, 2, ["a"], 3);
    assert t[2..3] == "b";
    ScanTurn(t, 2, ["a"], t, 3, ["a", "b"]);
    ScanStop(t, 3, ["a", "b"]);
  }

  /** A `;` between quotes is part of the token: `"a;b";` gives the one token `a;b`. */
  lemma {:induction false} ParseQuotedSemicolon()
    ensures Parse("\"a;b\";") == Scan(["a;b"], 5, "\"a;b\";")
  {
    var s := "\"a;b\";";
    assert s[0] == '"' && s[2] == ';' && s[3] == 'b' && s[4] == '"' && s[5] == ';';
    QuotedTokenTurn(s, 0, [], 4);
    assert s[1..4] == "a;b";
    ScanTurn(s, 0, [], s, 5, ["a;b"]);
    ScanStop(s, 5, ["a;b"]);
  }

  /** An empty quoted token is never closed: `''` needs more input. */
  lemma {:induction false} ParseEmptyQuotes()
    ensures Parse("''") == Scan([], 0, "''")
  {
    var s := "''";
    assert s[0] == '\'';
    UnclosedQuoteTurn(s, 0, []);
    ScanStop(s, 0, []);
  }

  /** The closing quote is looked for from the second character on: `'''` gives `'`. */
  lemma {:induction false} ParseTripleQuote()
    ensures Parse("'''") == Scan(["'"], 3, "'''")
  {
    var s := "'''";
    assert s[0] == '\'' && s[2] == '\'';
    QuotedTokenTurn(s, 0, [], 2);
    assert s[1..2] == "'";
    ScanTurn(s, 0, [], s, 3, ["'"]);
  }
}
