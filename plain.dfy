/**
 * Statements of plain text, with no quote, comment or backslash: whatever
 * runs of spaces, tabs and carriage returns separate the tokens, the scan of
 * `odbcshell_parse_line` gives the text's blank-separated fields, and the
 * statement ends at the first `;` or newline.
 */
module Plain {
  import opened Parsing

  /** The characters that separate tokens without ending the statement; the carriage return becomes a space. */
  predicate IsBlank(c: char)
  {
    c == ' ' || c == '\t' || c == '\r'
  }

  /** A character that neither ends the statement nor opens a quote, a comment or an escape. */
  predicate IsPlain(c: char)
  {
    c != ';' && c != '\n' && c != '\'' && c != '"' && c != '#' && c != '\\'
  }

  /** Every character of `t` is plain. */
  predicate AllPlain(t: seq<char>)
  {
    |t| == 0 || (IsPlain(t[0]) && AllPlain(t[1..]))
  }

  lemma {:induction false} PlainAll(t: seq<char>)
    requires forall i :: 0 <= i < |t| ==> IsPlain(t[i])
    ensures AllPlain(t)
  {
    if |t| > 0 {
      PlainAll(t[1..]);
    }
  }

  lemma {:induction false} PlainDrop(t: seq<char>, n: nat)
    requires n <= |t| && AllPlain(t)
    ensures AllPlain(t[n..])
  {
    if n > 0 {
      assert t[1..][n - 1..] == t[n..];
      PlainDrop(t[1..], n - 1);
    }
  }

  /** The length of the run of non-blank characters that `t` starts with. */
  function FieldLen(t: string): (n: nat)
    ensures n <= |t|
  {
    if |t| == 0 || IsBlank(t[0]) then 0 else 1 + FieldLen(t[1..])
  }

  /** The run is the longest one: no blank in it, and a blank or the end right after it. */
  lemma {:induction false} FieldLenRun(t: string)
    ensures var n := FieldLen(t);
            (n == |t| || IsBlank(t[n])) && forall i :: 0 <= i < n ==> !IsBlank(t[i])
    decreases |t|
  {
    if |t| > 0 && !IsBlank(t[0]) {
      FieldLenRun(t[1..]);
      var n := FieldLen(t);
      forall i | 1 <= i < n ensures !IsBlank(t[i]) {
        assert t[i] == t[1..][i - 1];
      }
      if n < |t| {
        assert t[n] == t[1..][n - 1];
      }
    }
  }

  /** The fields of `t`: its maximal runs of non-blank characters, from left to right. */
  function Fields(t: string): seq<string>
    decreases |t|
  {
    if |t| == 0 then []
    else if IsBlank(t[0]) then Fields(t[1..])
    else
      var n := FieldLen(t);
      [t[..n]] + Fields(t[n..])
  }

  /** Inside plain text, an unquoted token runs to the first blank, or to `e` where the text stops. */
  lemma {:induction false} FieldEnd(s: seq<char>, i: nat, e: nat)
    requires i <= e <= |s| && (e == |s| || IsDelim(s[e]))
    requires AllPlain(s[i..e])
    ensures SkipTo(s, i, Delimiter) == i + FieldLen(s[i..e])
    decreases e - i
  {
    if i < e {
      var t := s[i..e];
      assert t[0] == s[i];
      if !IsDelim(s[i]) {
        assert t[1..] == s[i + 1..e];
        FieldEnd(s, i + 1, e);
      }
    }
  }

  /** The fields of text that starts with a blank, and of text that starts with a field. */
  lemma {:induction false} FieldsHead(t: string)
    requires |t| > 0
    ensures IsBlank(t[0]) ==> Fields(t) == Fields(t[1..])
    ensures !IsBlank(t[0]) ==> 0 < FieldLen(t) && Fields(t) == [t[..FieldLen(t)]] + Fields(t[FieldLen(t)..])
  {
  }

  /** A token inside plain text is one turn, which yields the text's first field. */
  lemma {:induction false} PlainTokenTurn(s: seq<char>, pos: nat, args: seq<string>, e: nat, n: nat)
    requires pos < e <= |s| && (e == |s| || IsDelim(s[e]))
    requires AllPlain(s[pos..e])
    requires !IsBlank(s[pos]) && n == FieldLen(s[pos..e])
    ensures 0 < n && pos + n <= e && StepAt(s, pos, args) == Next(s, pos + n, args + [s[pos..pos + n]])
  {
    var t := s[pos..e];
    assert t[0] == s[pos] && t[1..] == s[pos + 1..e];
    FieldEnd(s, pos + 1, e);
  }


  /** `s` with the carriage returns between `pos` and `e` turned into spaces. */
  function Blanked(s: seq<char>, pos: nat, e: nat): (t: seq<char>)
    ensures |t| == |s|
  {
    seq(|s|, k requires 0 <= k < |s| => if pos <= k < e && s[k] == '\r' then ' ' else s[k])
  }

  /**
   * The loop run from `pos` until it returns (`Stop`) or reaches `end` or the
   * end of the string (`Next`, with the characters, position and tokens there).
   */
  ghost function Walk(s: seq<char>, pos: nat, args: seq<string>, end: nat): Step
    decreases end - pos
  {
    if pos >= end || pos >= |s| then Next(s, pos, args)
    else
      match StepAt(s, pos, args)
      case Stop(r) => Stop(r)
      case Next(s', pos', args') => Walk(s', pos', args', end)
  }

  /** A walk that arrives at `end` leaves the rest of the scan to where it arrived. */
  lemma {:induction false} WalkScan(s: seq<char>, pos: nat, args: seq<string>, t: seq<char>, end: nat, res: seq<string>)
    requires pos <= |s| && Walk(s, pos, args, end) == Next(t, end, res)
    ensures end <= |t| && ScanFrom(s, pos, args) == ScanFrom(t, end, res)
    decreases end - pos
  {
    if pos < end && pos < |s| {
      var st := StepAt(s, pos, args);
      ScanTurn(s, pos, args, st.s, st.pos, st.args);
      WalkScan(st.s, st.pos, st.args, t, end, res);
    }
  }

  /** A turn that moves on, before `end`, leaves the walk to where it moved. */
  lemma {:induction false} WalkTurn(s: seq<char>, pos: nat, args: seq<string>, s': seq<char>, pos': nat,
                                    args': seq<string>, end: nat)
    requires pos < end && pos < |s| && StepAt(s, pos, args) == Next(s', pos', args')
    ensures Walk(s, pos, args, end) == Walk(s', pos', args', end)
  {
  }

  /** The first field of plain text is one turn, which yields it as a token. */
  lemma {:induction false} FieldWalk(s: seq<char>, pos: nat, args: seq<string>, e: nat, n: nat)
    requires pos < e <= |s| && (e == |s| || IsDelim(s[e]))
    requires AllPlain(s[pos..e])
    requires !IsBlank(s[pos]) && n == FieldLen(s[pos..e])
    ensures Walk(s, pos, args, e) == Walk(s, pos + n, args + [s[pos..pos + n]], e)
  {
    PlainTokenTurn(s, pos, args, e, n);
    WalkTurn(s, pos, args, s, pos + n, args + [s[pos..pos + n]], e);
  }

  /** Blanking from a space or a tab, or from a carriage return already blanked, is blanking from the next character. */
  lemma {:induction false} BlankedNext(s: seq<char>, pos: nat, e: nat)
    requires pos < e <= |s|
    ensures s[pos] != '\r' ==> Blanked(s, pos + 1, e) == Blanked(s, pos, e)
    ensures s[pos] == '\r' ==> Blanked(s[pos := ' '], pos + 1, e) == Blanked(s, pos, e)
  {
  }

  /** Blanking past a field, which holds no carriage return, is blanking from its start. */
  lemma {:induction false} BlankedField(s: seq<char>, pos: nat, e: nat, n: nat)
    requires pos + n <= e <= |s| && n == FieldLen(s[pos..e])
    ensures Blanked(s, pos + n, e) == Blanked(s, pos, e)
  {
    var t := s[pos..e];
    FieldLenRun(t);
    forall k | pos <= k < pos + n ensures s[k] != '\r' {
      assert s[k] == t[k - pos];
    }
  }

  /**
   * Plain text from `pos` up to `e` is scanned through without returning:
   * its fields are added as tokens, whatever blanks separate them, and its
   * carriage returns become spaces.
   */
  lemma {:induction false} PlainWalk(s: seq<char>, pos: nat, args: seq<string>, e: nat)
    requires pos <= e <= |s| && (e == |s| || IsDelim(s[e]))
    requires AllPlain(s[pos..e])
    ensures Walk(s, pos, args, e) == Next(Blanked(s, pos, e), e, args + Fields(s[pos..e]))
    decreases e - pos, 1
  {
    if pos == e {
      assert Blanked(s, pos, e) == s && args + Fields(s[pos..e]) == args;
    } else if IsBlank(s[pos]) {
      BlankFirstWalk(s, pos, args, e);
    } else {
      FieldFirstWalk(s, pos, args, e);
    }
  }

  /** `PlainWalk` for plain text that starts with a blank. */
  lemma {:induction false} BlankFirstWalk(s: seq<char>, pos: nat, args: seq<string>, e: nat)
    requires pos < e <= |s| && (e == |s| || IsDelim(s[e])) && IsBlank(s[pos])
    requires AllPlain(s[pos..e])
    ensures Walk(s, pos, args, e) == Next(Blanked(s, pos, e), e, args + Fields(s[pos..e]))
    decreases e - pos, 0
  {
    BlankSplit(s, pos, e);
    BlankedNext(s, pos, e);
    assert s[pos..e][1..] == s[pos + 1..e];
    if s[pos] == '\r' {
      var s' := s[pos := ' '];
      assert s'[pos + 1..e] == s[pos + 1..e];
      WalkTurn(s, pos, args, s', pos + 1, args, e);
      PlainWalk(s', pos + 1, args, e);
    } else {
      WalkTurn(s, pos, args, s, pos + 1, args, e);
      PlainWalk(s, pos + 1, args, e);
    }
  }

  /** `PlainWalk` for plain text that starts with a field. */
  lemma {:induction false} FieldFirstWalk(s: seq<char>, pos: nat, args: seq<string>, e: nat)
    requires pos < e <= |s| && (e == |s| || IsDelim(s[e])) && !IsBlank(s[pos])
    requires AllPlain(s[pos..e])
    ensures Walk(s, pos, args, e) == Next(Blanked(s, pos, e), e, args + Fields(s[pos..e]))
    decreases e - pos, 0
  {
    var n := FieldLen(s[pos..e]);
    FieldParts(s, pos, args, e, n);
    FieldWalk(s, pos, args, e, n);
    PlainWalk(s, pos + n, args + [s[pos..pos + n]], e);
  }

  /** What is left after the first field of plain text: plain text, blanked and split alike. */
  lemma {:induction false} FieldParts(s: seq<char>, pos: nat, args: seq<string>, e: nat, n: nat)
    requires pos < e <= |s| && !IsBlank(s[pos]) && n == FieldLen(s[pos..e]) && AllPlain(s[pos..e])
    ensures 0 < n && pos + n <= e && AllPlain(s[pos + n..e])
    ensures Blanked(s, pos + n, e) == Blanked(s, pos, e)
    ensures args + [s[pos..pos + n]] + Fields(s[pos + n..e]) == args + Fields(s[pos..e])
  {
    FieldSplit(s, pos, e, n);
    BlankedField(s, pos, e, n);
    PlainDrop(s[pos..e], n);
    assert s[pos..e][n..] == s[pos + n..e];
  }

  /** Text from `pos` that starts with a blank has the fields of the text after it. */
  lemma {:induction false} BlankSplit(s: seq<char>, pos: nat, e: nat)
    requires pos < e <= |s| && IsBlank(s[pos])
    ensures Fields(s[pos..e]) == Fields(s[pos + 1..e])
  {
    var u := s[pos..e];
    assert u[0] == s[pos] && u[1..] == s[pos + 1..e];
  }

  /** Text from `pos` that starts with a field of `n` characters has that field first. */
  lemma {:induction false} FieldSplit(s: seq<char>, pos: nat, e: nat, n: nat)
    requires pos < e <= |s| && !IsBlank(s[pos]) && n == FieldLen(s[pos..e])
    ensures 0 < n && pos + n <= e && Fields(s[pos..e]) == [s[pos..pos + n]] + Fields(s[pos + n..e])
  {
    var u := s[pos..e];
    FieldsHead(u);
    assert u[0] == s[pos];
    assert u[..n] == s[pos..pos + n] && u[n..] == s[pos + n..e];
  }

  /**
   * Plain text from `pos` up to `e`, where a `;`, a newline or the end of the
   * string follows: the scan ends the statement at `e`, its first terminator,
   * with the text's fields added as tokens and its carriage returns, and
   * nothing else, turned into spaces.
   */
  lemma {:induction false} PlainScan(s: seq<char>, pos: nat, args: seq<string>, e: nat)
    requires pos <= e <= |s| && (e == |s| || s[e] == ';' || s[e] == '\n')
    requires forall k :: pos <= k < e ==> IsPlain(s[k])
    ensures ScanFrom(s, pos, args) == Scan(args + Fields(s[pos..e]), e, Blanked(s, pos, e))
  {
    var t, res := Blanked(s, pos, e), args + Fields(s[pos..e]);
    PlainAll(s[pos..e]);
    PlainWalk(s, pos, args, e);
    WalkScan(s, pos, args, t, e, res);
    if e < |s| {
      assert t[e] == s[e];
      ScanStop(t, e, res);
    }
  }

  /**
   * A statement of plain text ends at its first `;` or newline, or at the end
   * of the string, and its tokens are its blank-separated fields.
   */
  lemma {:induction false} ParsePlain(s: seq<char>, e: nat)
    requires e <= |s| && (e == |s| || s[e] == ';' || s[e] == '\n')
    requires forall k :: 0 <= k < e ==> IsPlain(s[k])
    ensures Parse(s) == Scan(Fields(s[..e]), e, Blanked(s, 0, e))
  {
    PlainScan(s, 0, [], e);
    assert s[0..e] == s[..e] && [] + Fields(s[..e]) == Fields(s[..e]);
  }


  /** The fields of a field followed by a blank or nothing: that field first. */
  lemma {:induction false} FieldThen(w: string, rest: string)
    requires |w| > 0 && forall i :: 0 <= i < |w| ==> !IsBlank(w[i])
    requires |rest| == 0 || IsBlank(rest[0])
    ensures Fields(w + rest) == [w] + Fields(rest)
  {
    FieldLenOf(w, rest);
    var t := w + rest;
    assert t[..|w|] == w && t[|w|..] == rest;
  }

  lemma {:induction false} FieldLenOf(w: string, rest: string)
    requires forall i :: 0 <= i < |w| ==> !IsBlank(w[i])
    requires |rest| == 0 || IsBlank(rest[0])
    ensures FieldLen(w + rest) == |w|
    decreases |w|
  {
    if |w| > 0 {
      assert (w + rest)[0] == w[0] && (w + rest)[1..] == w[1..] + rest;
      FieldLenOf(w[1..], rest);
    } else {
      assert w + rest == rest;
    }
  }

  /** Blanks in front add no field. */
  lemma {:induction false} BlanksThen(b: string, rest: string)
    requires forall i :: 0 <= i < |b| ==> IsBlank(b[i])
    ensures Fields(b + rest) == Fields(rest)
    decreases |b|
  {
    if |b| > 0 {
      assert (b + rest)[0] == b[0] && (b + rest)[1..] == b[1..] + rest;
      BlanksThen(b[1..], rest);
    } else {
      assert b + rest == rest;
    }
  }

  /**
   * Two fields with any run of spaces and tabs between them, then `;` or a
   * newline: exactly the two tokens, `eol` at the terminator, nothing rewritten.
   */
  /** The text of two fields with blanks between is plain, and ends where the terminator sits. */
  lemma SpacedPlain(w1: string, g: string, w2: string, t: char, rest: string)
    requires forall i :: 0 <= i < |w1| ==> IsPlain(w1[i]) && !IsBlank(w1[i])
    requires forall i :: 0 <= i < |w2| ==> IsPlain(w2[i]) && !IsBlank(w2[i])
    requires forall i :: 0 <= i < |g| ==> g[i] == ' ' || g[i] == '\t'
    ensures var s := w1 + g + w2 + [t] + rest; var e := |w1| + |g| + |w2|;
            s[e] == t && s[..e] == w1 + (g + w2) && forall k :: 0 <= k < e ==> IsPlain(s[k]) && s[k] != '\r'
  {
    var s := w1 + g + w2 + [t] + rest;
    var e := |w1| + |g| + |w2|;
    forall k | 0 <= k < e ensures IsPlain(s[k]) && s[k] != '\r' {
      if k < |w1| {
        assert s[k] == w1[k];
      } else if k < |w1| + |g| {
        assert s[k] == g[k - |w1|];
      } else {
        assert s[k] == w2[k - |w1| - |g|];
      }
    }
    assert s[..e] == w1 + (g + w2);
  }

  lemma {:induction false} ParseSpaced(w1: string, g: string, w2: string, t: char, rest: string)
    requires |w1| > 0 && forall i :: 0 <= i < |w1| ==> IsPlain(w1[i]) && !IsBlank(w1[i])
    requires |w2| > 0 && forall i :: 0 <= i < |w2| ==> IsPlain(w2[i]) && !IsBlank(w2[i])
    requires |g| > 0 && forall i :: 0 <= i < |g| ==> g[i] == ' ' || g[i] == '\t'
    requires t == ';' || t == '\n'
    ensures var s := w1 + g + w2 + [t] + rest;
            Parse(s) == Scan([w1, w2], |w1| + |g| + |w2|, s)
  {
    var s := w1 + g + w2 + [t] + rest;
    var e := |w1| + |g| + |w2|;
    SpacedPlain(w1, g, w2, t, rest);
    ParsePlain(s, e);
    assert Blanked(s, 0, e) == s;
    FieldThen(w2, "");
    assert w2 + "" == w2 && Fields(w2) == [w2];
    BlanksThen(g, w2);
    FieldThen(w1, g + w2);
    assert Fields(s[..e]) == [w1] + [w2] == [w1, w2];
  }
}
