/**
 * `odbcshell_interpret_line` and `odbcshell_interpret_buffer`: look a
 * statement's command up, check how many tokens it may have, dispatch it;
 * and run the statements of one buffer left to right.
 *
 * The handlers themselves (`odbcshell_cmd_*`) are not part of this model:
 * a handler is named by `Handler`, and what it does is the caller-supplied
 * `handle`, a function from the shell's configuration (of any type `S`), the
 * handler and the tokens to the new configuration and an outcome code.
 */
module Interpret {
  import opened Text
  import opened Commands
  import opened Parsing
  import opened Plain

  /** The handler functions the dispatch `switch` calls. */
  datatype Handler =
    | CmdIncomplete | CmdClear | CmdEcho | CmdHelp | CmdQuit
    | CmdResetConf | CmdSet | CmdUnset | CmdVersion

  /** The `switch(cmd->val)` of `odbcshell_interpret_line`; anything else goes to `default`. */
  function HandlerFor(v: CmdVal): Handler
  {
    match v
    case Id(Clear) => CmdClear
    case Id(Echo) => CmdEcho
    case Id(Help) => CmdHelp
    case Id(Quit) => CmdQuit
    case Id(ResetConf) => CmdResetConf
    case Id(Set) => CmdSet
    case Id(Unset) => CmdUnset
    case Id(Version) => CmdVersion
    case _ => CmdIncomplete
  }

  /** Index of the entry `odbcshell_lookup_opt_by_name` returns for `name`, if any. */
  function FindCommand(name: string): (r: Option<nat>)
    ensures r.Some? ==> r.value < |CommandTable|
  {
    CommandTableWellFormed();
    LookupOptByName(Some(CommandTable), name)
  }

  /** The two arity guards: `min_arg <= argc`, and `argc <= max_arg` unless `max_arg` is -1. */
  predicate Admits(e: CmdOption, argc: int)
  {
    !(e.minArg > argc) && !(e.maxArg < argc && e.maxArg != -1)
  }

  /**
   * `odbcshell_interpret_line`: 0 and no change for no tokens, for a name the
   * lookup does not find, or for a wrong number of tokens; otherwise what the
   * chosen handler returns.
   */
  function InterpretLine<S>(cnf: S, argv: seq<string>, handle: (S, Handler, seq<string>) -> (S, int)): (r: (S, int))
    ensures |argv| == 0 ==> r == (cnf, 0)
    ensures r != (cnf, 0) ==> |argv| > 0 && exists h :: r == handle(cnf, h, argv)
  {
    if |argv| == 0 then (cnf, 0)
    else
      match FindCommand(argv[0])
      case None => (cnf, 0)
      case Some(k) =>
        var e := CommandTable[k];
        if !Admits(e, |argv|) then (cnf, 0)
        else handle(cnf, HandlerFor(e.val), argv)
  }

  /** A table command with an acceptable number of tokens runs its own handler. */
  lemma DispatchKnown<S>(cnf: S, argv: seq<string>, handle: (S, Handler, seq<string>) -> (S, int), k: nat)
    requires k < SentinelIndex && |argv| > 0 && EqualsIgnoreCase(argv[0], CommandTable[k].name.value)
    requires CommandTable[k].minArg <= |argv| <= CommandTable[k].maxArg
    ensures InterpretLine(cnf, argv, handle) == handle(cnf, HandlerFor(CommandTable[k].val), argv)
  {
    LookupFindsEntry(argv[0], k);
  }

  /** A table command with too few or too many tokens is refused: 0, nothing dispatched. */
  lemma RefuseArity<S>(cnf: S, argv: seq<string>, handle: (S, Handler, seq<string>) -> (S, int), k: nat)
    requires k < SentinelIndex && |argv| > 0 && EqualsIgnoreCase(argv[0], CommandTable[k].name.value)
    requires |argv| < CommandTable[k].minArg || CommandTable[k].maxArg < |argv|
    ensures InterpretLine(cnf, argv, handle) == (cnf, 0)
  {
    LookupFindsEntry(argv[0], k);
  }

  /**
   * A name that is not in the table finds the sentinel, whose -1 bounds pass
   * both guards: it reaches the `default` handler whatever the token count.
   */
  lemma DispatchUnknown<S>(cnf: S, argv: seq<string>, handle: (S, Handler, seq<string>) -> (S, int))
    requires |argv| > 0
    requires forall k :: 0 <= k < SentinelIndex ==> !EqualsIgnoreCase(argv[0], CommandTable[k].name.value)
    ensures InterpretLine(cnf, argv, handle) == handle(cnf, CmdIncomplete, argv)
  {
    LookupUnknownIsSentinel(argv[0]);
  }

  /** `connect`, in any case, takes exactly one argument after its name and then goes to the `default` handler. */
  lemma ConnectArity<S>(cnf: S, argv: seq<string>, handle: (S, Handler, seq<string>) -> (S, int))
    requires |argv| > 0 && EqualsIgnoreCase(argv[0], "connect")
    ensures |argv| == 2 ==> InterpretLine(cnf, argv, handle) == handle(cnf, CmdIncomplete, argv)
    ensures |argv| != 2 ==> InterpretLine(cnf, argv, handle) == (cnf, 0)
  {
    assert CommandTable[0].name.value == "connect";
    if |argv| == 2 {
      DispatchKnown(cnf, argv, handle, 0);
    } else {
      RefuseArity(cnf, argv, handle, 0);
    }
  }

  /** `set`, in any case, takes up to two arguments and then runs the `set` handler. */
  lemma SetArity<S>(cnf: S, argv: seq<string>, handle: (S, Handler, seq<string>) -> (S, int))
    requires |argv| > 0 && EqualsIgnoreCase(argv[0], "set")
    ensures |argv| <= 3 ==> InterpretLine(cnf, argv, handle) == handle(cnf, CmdSet, argv)
    ensures |argv| > 3 ==> InterpretLine(cnf, argv, handle) == (cnf, 0)
  {
    assert CommandTable[5].name.value == "set";
    if |argv| <= 3 {
      DispatchKnown(cnf, argv, handle, 5);
    } else {
      RefuseArity(cnf, argv, handle, 5);
    }
  }

  // ---------------------------------------------------------------------------
  // A buffer of statements
  // ---------------------------------------------------------------------------

  /** What `odbcshell_interpret_buffer` returns, `*offsetp`, the configuration after, the buffer after. */
  datatype Run<S> = Run(code: int, offset: nat, cnf: S, buf: seq<char>)

  /** One turn of its loop either returns or goes on with a new buffer, position, offset and configuration. */
  datatype Turn<S> = Finish(r: Run<S>) | Continue(buf: seq<char>, pos: nat, offset: nat, cnf: S)

  /**
   * One turn of the `while(pos < len)` loop of `odbcshell_interpret_buffer`:
   * parse the statement at `pos` (rewriting the buffer), stop on "need more
   * input" or on a statement without tokens, else dispatch it and stop on
   * outcome 1, or on -1 when the configuration does not say to continue.
   */
  function Segment<S>(buf: seq<char>, pos: nat, offset: nat, cnf: S,
                      handle: (S, Handler, seq<string>) -> (S, int), continues: S -> bool): (t: Turn<S>)
    requires pos < |buf|
    ensures t.Continue? ==> |t.buf| == |buf| && pos < t.pos
    ensures t.Finish? ==> |t.r.buf| == |buf|
  {
    var p := Parse(buf[pos..]);
    var nb := buf[..pos] + p.buf;
    if p.eol == 0 then Finish(Run(2, offset, cnf, nb))
    else if |p.args| == 0 then Finish(Run(0, offset, cnf, nb))
    else
      var (cnf', code) := InterpretLine(cnf, p.args, handle);
      if code == 1 then Finish(Run(1, offset + p.eol, cnf', nb))
      else if code == -1 && !continues(cnf') then Finish(Run(-1, offset + p.eol, cnf', nb))
      else Continue(nb, pos + p.eol + 1, offset + p.eol, cnf')
  }

  /**
   * The loop from `pos`, `offset` being `*offsetp` so far and `buf` the
   * characters before the NUL as the earlier statements left them; running
   * off the end returns 0.
   */
  function InterpretFrom<S>(buf: seq<char>, pos: nat, offset: nat, cnf: S,
                            handle: (S, Handler, seq<string>) -> (S, int), continues: S -> bool): (r: Run<S>)
    ensures |r.buf| == |buf|
    decreases |buf| - pos
  {
    if pos >= |buf| then Run(0, offset, cnf, buf)
    else
      match Segment(buf, pos, offset, cnf, handle, continues)
      case Finish(r) => r
      case Continue(nb, pos', offset', cnf') => InterpretFrom(nb, pos', offset', cnf', handle, continues)
  }

  /** The whole buffer `buf` (the characters before the NUL). */
  function InterpretAll<S>(buf: seq<char>, cnf: S, handle: (S, Handler, seq<string>) -> (S, int),
                           continues: S -> bool): Run<S>
  {
    InterpretFrom(buf, 0, 0, cnf, handle, continues)
  }

  lemma SplitAt<T>(a: seq<T>, n: nat)
    requires n <= |a|
    ensures a == a[..n] + a[n..]
  {
  }

  /** No NUL in `s`. */
  predicate NoNul(s: seq<char>)
  {
    forall i :: 0 <= i < |s| ==> s[i] != '\0'
  }

  /** The string of a buffer whose characters before `n` are not NUL and that has a NUL (or its end) at `n`. */
  lemma StrLenAt(a: seq<char>, pos: nat, n: nat)
    requires pos <= n <= |a| && (n == |a| || a[n] == '\0')
    requires forall i :: pos <= i < n ==> a[i] != '\0'
    ensures StrLen(a[pos..]) == n - pos
    decreases n - pos
  {
    if pos < n {
      assert a[pos..][1..] == a[pos + 1..];
      StrLenAt(a, pos + 1, n);
    }
  }

  /** The parser's rewriting of the statement at `pos` leaves no NUL where there was none. */
  lemma SegmentKeepsNoNul(buf: seq<char>, pos: nat)
    requires pos < |buf| && NoNul(buf)
    ensures NoNul(buf[..pos] + Parse(buf[pos..]).buf)
  {
    var t := Parse(buf[pos..]).buf;
    ScanFacts(buf[pos..], 0, []);
    forall i | 0 <= i < |buf| ensures (buf[..pos] + t)[i] != '\0' {
      if i >= pos {
        assert buf[pos..][i - pos] == buf[i];
      }
    }
  }

  /**
   * `odbcshell_parse_line(&buff[pos], ...)` inside the string of length `len`:
   * the tokens and `eol` of the statement at `pos`, the statement rewritten in
   * place and still free of NUL.
   */
  method ParseSegment(buff: array<char>, len: nat, pos: nat) returns (args: seq<string>, eol: nat)
    requires pos < len <= buff.Length && (len == buff.Length || buff[len] == '\0') && NoNul(buff[..len])
    modifies buff
    ensures var p := Parse(old(buff[..len])[pos..]);
            args == p.args && eol == p.eol && buff[..len] == old(buff[..len])[..pos] + p.buf
    ensures buff[len..] == old(buff[len..]) && NoNul(buff[..len])
  {
    ghost var cur := buff[..len];
    StrLenAt(buff[..], pos, len);
    assert buff[..][pos..] == buff[pos..];
    assert buff[pos..pos + (len - pos)] == cur[pos..];
    args, eol := ParseLine(buff, pos);
    SegmentKeepsNoNul(cur, pos);
  }

  /**
   * One turn of the loop on the array: the statement at `pos` parsed in
   * place, then the checks and the dispatch, exactly as `Segment` describes them.
   */
  method SegmentStep<S>(buff: array<char>, len: nat, pos: nat, offset: nat, cnf: S,
                        handle: (S, Handler, seq<string>) -> (S, int), continues: S -> bool)
    returns (done: bool, code: int, pos': nat, offset': nat, cnf': S)
    requires pos < len <= buff.Length && (len == buff.Length || buff[len] == '\0') && NoNul(buff[..len])
    modifies buff
    ensures buff[len..] == old(buff[len..]) && NoNul(buff[..len]) && (done ==> pos' == pos)
    ensures var t := Segment(old(buff[..len]), pos, offset, cnf, handle, continues);
            if done then t == Finish(Run(code, offset', cnf', buff[..len]))
            else t == Continue(buff[..len], pos', offset', cnf')
  {
    var args, eol := ParseSegment(buff, len, pos);
    done, code, pos', offset', cnf' := true, 0, pos, offset, cnf;
    if eol == 0 {
      code := 2;
      return;
    }
    if |args| == 0 {
      return;
    }
    offset' := offset + eol;
    var outcome := InterpretLine(cnf, args, handle);
    cnf', code := outcome.0, outcome.1;
    if code == 1 {
      return;
    }
    if code == -1 && !continues(cnf') {
      return;
    }
    done, pos' := false, pos + eol + 1;
  }

  /**
   * `odbcshell_interpret_buffer` on the NUL-terminated string in `buff`: each
   * statement is parsed in place (so the buffer is rewritten as the parser
   * rewrites it) and dispatched; the result is exactly `InterpretAll`.
   */
  method InterpretBuffer<S>(buff: array<char>, cnf: S, handle: (S, Handler, seq<string>) -> (S, int),
                            continues: S -> bool)
    returns (code: int, offset: nat, cnf': S)
    modifies buff
    ensures var len := StrLen(old(buff[..]));
            var r := InterpretAll(old(buff[..len]), cnf, handle, continues);
            code == r.code && offset == r.offset && cnf' == r.cnf && buff[..] == r.buf + old(buff[len..])
  {
    var len := StrLen(buff[..]);
    ghost var orig := buff[..len];
    ghost var tail := buff[len..];
    var pos: nat := 0;
    offset, cnf' := 0, cnf;
    var done := false;
    code := 0;
    while pos < len && !done
      invariant buff[len..] == tail && NoNul(buff[..len])
      invariant !done ==> InterpretFrom(buff[..len], pos, offset, cnf', handle, continues) == InterpretAll(orig, cnf, handle, continues)
      invariant done ==> Run(code, offset, cnf', buff[..len]) == InterpretAll(orig, cnf, handle, continues)
      decreases len - pos, !done
    {
      done, code, pos, offset, cnf' := SegmentStep(buff, len, pos, offset, cnf', handle, continues);
    }
    if !done {
      code := 0;
    }
    SplitAt(buff[..], len);
  }

  // ---------------------------------------------------------------------------
  // Properties of a run over a buffer
  // ---------------------------------------------------------------------------

  /** Rewriting the part from `pos` on rewrites the whole. */
  lemma RewritesSuffix(buf: seq<char>, pos: nat, t: seq<char>)
    requires pos <= |buf| && RewritesTo(buf[pos..], t)
    ensures RewritesTo(buf, buf[..pos] + t)
  {
    forall i | 0 <= i < |buf| ensures (buf[..pos] + t)[i] == buf[i] || ((buf[..pos] + t)[i] == ' ' && IsRewritable(buf[i])) {
      if i >= pos {
        assert buf[pos..][i - pos] == buf[i];
      }
    }
  }

  /**
   * A run returns 2, 1, 0 or -1, and -1 only when the configuration it ends
   * with does not say to continue; `*offsetp` never passes the end of the
   * string; and the buffer only changes by the parser's spaces.
   */
  lemma {:induction false} InterpretFacts<S>(buf: seq<char>, pos: nat, offset: nat, cnf: S,
                                             handle: (S, Handler, seq<string>) -> (S, int), continues: S -> bool)
    requires offset <= pos && offset <= |buf|
    ensures var r := InterpretFrom(buf, pos, offset, cnf, handle, continues);
            (r.code == 2 || r.code == 1 || r.code == 0 || r.code == -1) &&
            (r.code == -1 ==> !continues(r.cnf)) &&
            r.offset <= |buf| && RewritesTo(buf, r.buf)
    decreases |buf| - pos
  {
    if pos < |buf| {
      var p := Parse(buf[pos..]);
      ScanFacts(buf[pos..], 0, []);
      RewritesSuffix(buf, pos, p.buf);
      match Segment(buf, pos, offset, cnf, handle, continues)
      case Finish(r) =>
      case Continue(nb, pos', offset', cnf') =>
        InterpretFacts(nb, pos', offset', cnf', handle, continues);
        RewritesToTransitive(buf, nb, InterpretFrom(nb, pos', offset', cnf', handle, continues).buf);
    }
  }

  /**
   * A statement that starts with `;` or a newline has `eol` 0: the run stops
   * with 2 ("need more input") and dispatches nothing.
   */
  lemma {:induction false} LeadingTerminator<S>(buf: seq<char>, pos: nat, offset: nat, cnf: S,
                                                handle: (S, Handler, seq<string>) -> (S, int), continues: S -> bool)
    requires pos < |buf| && (buf[pos] == ';' || buf[pos] == '\n')
    ensures InterpretFrom(buf, pos, offset, cnf, handle, continues) == Run(2, offset, cnf, buf)
  {
    var s := buf[pos..];
    assert s[0] == buf[pos];
    ScanStop(s, 0, []);
    assert buf[..pos] + s == buf;
  }

  /** A turn that finishes gives the run's result; one that continues leaves the rest of the run to where it went. */
  lemma FromTurn<S>(buf: seq<char>, pos: nat, offset: nat, cnf: S,
                    handle: (S, Handler, seq<string>) -> (S, int), continues: S -> bool)
    requires pos < |buf|
    ensures var t := Segment(buf, pos, offset, cnf, handle, continues);
            (t.Finish? ==> InterpretFrom(buf, pos, offset, cnf, handle, continues) == t.r) &&
            (t.Continue? ==> InterpretFrom(buf, pos, offset, cnf, handle, continues) ==
                               InterpretFrom(t.buf, t.pos, t.offset, t.cnf, handle, continues))
  {
  }

  /** A statement with tokens that leaves the buffer as it was: the turn dispatches it. */
  lemma SegmentStatement<S>(buf: seq<char>, pos: nat, args: seq<string>, eol: nat, next: nat, offset: nat,
                            off: nat, cnf: S, handle: (S, Handler, seq<string>) -> (S, int), continues: S -> bool,
                            cnf': S, code: int)
    requires pos < |buf| && 0 < eol && |args| > 0 && Parse(buf[pos..]) == Scan(args, eol, buf[pos..])
    requires next == pos + eol + 1 && off == offset + eol
    requires InterpretLine(cnf, args, handle) == (cnf', code)
    ensures Segment(buf, pos, offset, cnf, handle, continues) ==
              if code == 1 then Finish(Run(1, off, cnf', buf))
              else if code == -1 && !continues(cnf') then Finish(Run(-1, off, cnf', buf))
              else Continue(buf, next, off, cnf')
  {
    assert buf[..pos] + buf[pos..] == buf;
  }

  /** Written-out words are never empty text. */
  lemma {:induction false} WordsNotEmpty(ws: seq<Word>)
    requires |ws| > 0 && WellFormed(ws[0])
    ensures |Words(ws)| > 0
  {
    assert |Render(ws[0])| > 0;
  }

  /** A turn that goes on leaves the rest of the run to where it went. */
  lemma RunOn<S>(buf: seq<char>, pos: nat, o: nat, c: S, b: seq<char>, p': nat, o': nat, c': S,
                 handle: (S, Handler, seq<string>) -> (S, int), continues: S -> bool)
    requires pos < |buf|
    requires Segment(buf, pos, o, c, handle, continues) == Continue(b, p', o', c')
    ensures InterpretFrom(buf, pos, o, c, handle, continues) == InterpretFrom(b, p', o', c', handle, continues)
  {
    FromTurn(buf, pos, o, c, handle, continues);
  }

  /** A turn that finishes gives the run's result. */
  lemma RunStop<S>(buf: seq<char>, pos: nat, o: nat, c: S, r: Run<S>,
                   handle: (S, Handler, seq<string>) -> (S, int), continues: S -> bool)
    requires pos < |buf|
    requires Segment(buf, pos, o, c, handle, continues) == Finish(r)
    ensures InterpretFrom(buf, pos, o, c, handle, continues) == r
  {
  }

  /**
   * A turn that dispatches a statement ending at `eol` with outcome `code`
   * and configuration `cnf'` after it, the parser having left the buffer as
   * `b`: the run stops on outcome 1, on -1 unless the configuration says to
   * continue, and otherwise goes on at `next`, just past the terminator,
   * with `*offsetp` grown to `off`.
   */
  lemma RunTurn<S>(buf: seq<char>, pos: nat, b: seq<char>, next: nat, off: nat, offset: nat, cnf: S,
                   handle: (S, Handler, seq<string>) -> (S, int), continues: S -> bool,
                   cnf': S, code: int)
    requires pos < |buf|
    requires Segment(buf, pos, offset, cnf, handle, continues) ==
              if code == 1 then Finish(Run(1, off, cnf', b))
              else if code == -1 && !continues(cnf') then Finish(Run(-1, off, cnf', b))
              else Continue(b, next, off, cnf')
    ensures code == 1 ==> InterpretFrom(buf, pos, offset, cnf, handle, continues) == Run(1, off, cnf', b)
    ensures code == -1 && !continues(cnf') ==>
              InterpretFrom(buf, pos, offset, cnf, handle, continues) == Run(-1, off, cnf', b)
    ensures code != 1 && !(code == -1 && !continues(cnf')) ==>
              InterpretFrom(buf, pos, offset, cnf, handle, continues) ==
              InterpretFrom(b, next, off, cnf', handle, continues)
  {
    if code == 1 {
      RunStop(buf, pos, offset, cnf, Run(1, off, cnf', b), handle, continues);
    } else if code == -1 && !continues(cnf') {
      RunStop(buf, pos, offset, cnf, Run(-1, off, cnf', b), handle, continues);
    } else {
      RunOn(buf, pos, offset, cnf, b, next, off, cnf', handle, continues);
    }
  }

  /** `RunTurn` for a statement the parser leaves as it was. */
  lemma RunParsed<S>(buf: seq<char>, pos: nat, eol: nat, next: nat, offset: nat, off: nat, cnf: S,
                     handle: (S, Handler, seq<string>) -> (S, int), continues: S -> bool,
                     cnf': S, code: int)
    requires pos < |buf| && next == pos + eol + 1 && off == offset + eol
    requires Segment(buf, pos, offset, cnf, handle, continues) ==
              if code == 1 then Finish(Run(1, off, cnf', buf))
              else if code == -1 && !continues(cnf') then Finish(Run(-1, off, cnf', buf))
              else Continue(buf, next, off, cnf')
    ensures code == 1 ==> InterpretFrom(buf, pos, offset, cnf, handle, continues) == Run(1, off, cnf', buf)
    ensures code == -1 && !continues(cnf') ==>
              InterpretFrom(buf, pos, offset, cnf, handle, continues) == Run(-1, off, cnf', buf)
    ensures code != 1 && !(code == -1 && !continues(cnf')) ==>
              InterpretFrom(buf, pos, offset, cnf, handle, continues) ==
              InterpretFrom(buf, next, off, cnf', handle, continues)
  {
    RunTurn(buf, pos, buf, next, off, offset, cnf, handle, continues, cnf', code);
  }

  /** The turn at a statement of words ended by `;` or a newline dispatches exactly the words' texts. */
  lemma {:induction false} StatementTurn<S>(buf: string, pos: nat, ws: seq<Word>, t: char, next: nat, offset: nat,
                                            off: nat, cnf: S, handle: (S, Handler, seq<string>) -> (S, int),
                                            continues: S -> bool, cnf': S, code: int)
    requires next == pos + |Words(ws)| + 1 && off == offset + |Words(ws)|
    requires (t == ';' || t == '\n') && next <= |buf| && buf[pos..next] == Words(ws) + [t]
    requires |ws| > 0 && forall i :: 0 <= i < |ws| ==> WellFormed(ws[i])
    requires InterpretLine(cnf, Values(ws), handle) == (cnf', code)
    ensures Segment(buf, pos, offset, cnf, handle, continues) ==
              if code == 1 then Finish(Run(1, off, cnf', buf))
              else if code == -1 && !continues(cnf') then Finish(Run(-1, off, cnf', buf))
              else Continue(buf, next, off, cnf')
  {
    StatementParse(buf, pos, ws, t, next);
    SegmentStatement(buf, pos, Values(ws), |Words(ws)|, next, offset, off, cnf, handle, continues, cnf', code);
  }

  /** The statement of words at `pos`, ended by `;` or a newline, parses to exactly the words' texts. */
  lemma StatementParse(buf: string, pos: nat, ws: seq<Word>, t: char, next: nat)
    requires next == pos + |Words(ws)| + 1
    requires (t == ';' || t == '\n') && next <= |buf| && buf[pos..next] == Words(ws) + [t]
    requires |ws| > 0 && forall i :: 0 <= i < |ws| ==> WellFormed(ws[i])
    ensures |Words(ws)| > 0 && Parse(buf[pos..]) == Scan(Values(ws), |Words(ws)|, buf[pos..])
  {
    var rest := buf[next..];
    assert buf[pos..] == buf[pos..next] + rest;
    assert buf[pos..] == Words(ws) + [t] + rest;
    ParseStatement(ws, t, rest);
    WordsNotEmpty(ws);
  }

  /**
   * A statement of words at `pos`, ended by `;` or a newline, which
   * `InterpretLine` answers with `(cnf', code)`: it is dispatched with exactly
   * the words' texts, `*offsetp` grows by its length to `off`, and the run
   * stops on outcome 1, on -1 unless the configuration says to continue, and
   * otherwise goes on at `next`, just past its terminator.
   */
  lemma {:induction false} RunStatement<S>(buf: string, pos: nat, ws: seq<Word>, t: char, next: nat, offset: nat,
                                           off: nat, cnf: S, handle: (S, Handler, seq<string>) -> (S, int),
                                           continues: S -> bool, cnf': S, code: int)
    requires next == pos + |Words(ws)| + 1 && off == offset + |Words(ws)|
    requires (t == ';' || t == '\n') && next <= |buf| && buf[pos..next] == Words(ws) + [t]
    requires |ws| > 0 && forall i :: 0 <= i < |ws| ==> WellFormed(ws[i])
    requires InterpretLine(cnf, Values(ws), handle) == (cnf', code)
    ensures code == 1 ==> InterpretFrom(buf, pos, offset, cnf, handle, continues) == Run(1, off, cnf', buf)
    ensures code == -1 && !continues(cnf') ==>
              InterpretFrom(buf, pos, offset, cnf, handle, continues) == Run(-1, off, cnf', buf)
    ensures code != 1 && !(code == -1 && !continues(cnf')) ==>
              InterpretFrom(buf, pos, offset, cnf, handle, continues) ==
              InterpretFrom(buf, next, off, cnf', handle, continues)
  {
    StatementTurn(buf, pos, ws, t, next, offset, off, cnf, handle, continues, cnf', code);
    RunParsed(buf, pos, |Words(ws)|, next, offset, off, cnf, handle, continues, cnf', code);
  }

  /**
   * A statement that ends (`eol` past 0) without a token, whatever it holds
   * (blanks, a comment): the run stops there with 0, with `*offsetp` and the
   * configuration as they were, and whatever follows is never run.
   */
  lemma TokenlessStops<S>(buf: seq<char>, pos: nat, offset: nat, cnf: S,
                          handle: (S, Handler, seq<string>) -> (S, int), continues: S -> bool)
    requires pos < |buf| && Parse(buf[pos..]).eol > 0 && |Parse(buf[pos..]).args| == 0
    ensures InterpretFrom(buf, pos, offset, cnf, handle, continues) ==
              Run(0, offset, cnf, buf[..pos] + Parse(buf[pos..]).buf)
  {
  }

  /**
   * A statement of blanks alone (spaces, tabs, carriage returns) ended by
   * `;`, a newline or the end of the string has no tokens: the run stops
   * there with 0, and only its carriage returns are turned into spaces.
   */
  lemma {:induction false} BlankStatementStops<S>(buf: seq<char>, pos: nat, e: nat, offset: nat, cnf: S,
                                                  handle: (S, Handler, seq<string>) -> (S, int), continues: S -> bool)
    requires pos < e <= |buf| && (e == |buf| || buf[e] == ';' || buf[e] == '\n')
    requires forall k :: pos <= k < e ==> IsBlank(buf[k])
    ensures InterpretFrom(buf, pos, offset, cnf, handle, continues) ==
              Run(0, offset, cnf, buf[..pos] + Blanked(buf[pos..], 0, e - pos))
  {
    var s := buf[pos..];
    var n := e - pos;
    assert s[..n] == buf[pos..e];
    forall k | 0 <= k < n ensures IsPlain(s[k]) {
      assert s[k] == buf[pos + k];
    }
    assert n == |s| || s[n] == ';' || s[n] == '\n' by {
      if n < |s| { assert s[n] == buf[e]; }
    }
    ParsePlain(s, n);
    BlanksThen(s[..n], "");
    assert s[..n] + "" == s[..n];
    TokenlessStops(buf, pos, offset, cnf, handle, continues);
  }

  /**
   * A statement of plain text (no quote, comment or backslash) at `pos`,
   * ended at `e` by `;`, a newline or the end of the string, whose fields
   * `InterpretLine` answers with `(cnf', code)`: it is dispatched with its
   * blank-separated fields, its carriage returns become spaces (giving `b`),
   * `*offsetp` grows by its length to `off`, and the run stops on outcome 1,
   * on -1 unless the configuration says to continue, and otherwise goes on
   * at `next`, just past `e`.
   */
  lemma {:induction false} RunPlain<S>(buf: seq<char>, pos: nat, e: nat, b: seq<char>, next: nat, offset: nat,
                                       off: nat, cnf: S, handle: (S, Handler, seq<string>) -> (S, int),
                                       continues: S -> bool, cnf': S, code: int)
    requires pos < e <= |buf| && (e == |buf| || buf[e] == ';' || buf[e] == '\n')
    requires forall k :: pos <= k < e ==> IsPlain(buf[k])
    requires b == buf[..pos] + Blanked(buf[pos..], 0, e - pos) && next == e + 1 && off == offset + (e - pos)
    requires |Fields(buf[pos..e])| > 0 && InterpretLine(cnf, Fields(buf[pos..e]), handle) == (cnf', code)
    ensures code == 1 ==> InterpretFrom(buf, pos, offset, cnf, handle, continues) == Run(1, off, cnf', b)
    ensures code == -1 && !continues(cnf') ==>
              InterpretFrom(buf, pos, offset, cnf, handle, continues) == Run(-1, off, cnf', b)
    ensures code != 1 && !(code == -1 && !continues(cnf')) ==>
              InterpretFrom(buf, pos, offset, cnf, handle, continues) == InterpretFrom(b, next, off, cnf', handle, continues)
  {
    PlainSegment(buf, pos, e, b, next, offset, off, cnf, handle, continues, cnf', code);
    RunTurn(buf, pos, b, next, off, offset, cnf, handle, continues, cnf', code);
  }

  /** The turn at a statement of plain text dispatches its fields, with its carriage returns blanked. */
  lemma PlainSegment<S>(buf: seq<char>, pos: nat, e: nat, b: seq<char>, next: nat, offset: nat, off: nat, cnf: S,
                        handle: (S, Handler, seq<string>) -> (S, int), continues: S -> bool,
                        cnf': S, code: int)
    requires pos < e <= |buf| && (e == |buf| || buf[e] == ';' || buf[e] == '\n')
    requires forall k :: pos <= k < e ==> IsPlain(buf[k])
    requires b == buf[..pos] + Blanked(buf[pos..], 0, e - pos) && next == e + 1 && off == offset + (e - pos)
    requires |Fields(buf[pos..e])| > 0 && InterpretLine(cnf, Fields(buf[pos..e]), handle) == (cnf', code)
    ensures Segment(buf, pos, offset, cnf, handle, continues) ==
              if code == 1 then Finish(Run(1, off, cnf', b))
              else if code == -1 && !continues(cnf') then Finish(Run(-1, off, cnf', b))
              else Continue(b, next, off, cnf')
  {
    PlainAt(buf, pos, e);
  }

  /** The statement of plain text at `pos`, ended at `e`, parses to its fields. */
  lemma PlainAt(buf: seq<char>, pos: nat, e: nat)
    requires pos < e <= |buf| && (e == |buf| || buf[e] == ';' || buf[e] == '\n')
    requires forall k :: pos <= k < e ==> IsPlain(buf[k])
    ensures Parse(buf[pos..]) == Scan(Fields(buf[pos..e]), e - pos, Blanked(buf[pos..], 0, e - pos))
  {
    var s := buf[pos..];
    var n := e - pos;
    assert s[..n] == buf[pos..e];
    forall k | 0 <= k < n ensures IsPlain(s[k]) {
      assert s[k] == buf[pos + k];
    }
    assert n == |s| || s[n] == ';' || s[n] == '\n' by {
      if n < |s| { assert s[n] == buf[e]; }
    }
    ParsePlain(s, n);
  }

  /**
   * `a;;b`: the first statement is dispatched and, when the run goes on,
   * the empty statement after it reports "need more input" (2) with the
   * first statement's effect on the configuration and on `*offsetp` kept.
   */
  lemma {:induction false} DoubledSemicolon<S>(buf: string, pos: nat, ws: seq<Word>, next: nat, offset: nat, off: nat,
                                               cnf: S, handle: (S, Handler, seq<string>) -> (S, int),
                                               continues: S -> bool, cnf': S, code: int)
    requires next == pos + |Words(ws)| + 1 && off == offset + |Words(ws)|
    requires next < |buf| && buf[pos..next] == Words(ws) + ";" && buf[next] == ';'
    requires |ws| > 0 && forall i :: 0 <= i < |ws| ==> WellFormed(ws[i])
    requires InterpretLine(cnf, Values(ws), handle) == (cnf', code)
    requires code != 1 && !(code == -1 && !continues(cnf'))
    ensures InterpretFrom(buf, pos, offset, cnf, handle, continues) == Run(2, off, cnf', buf)
  {
    RunStatement(buf, pos, ws, ';', next, offset, off, cnf, handle, continues, cnf', code);
    LeadingTerminator(buf, next, off, cnf', handle, continues);
  }
}
