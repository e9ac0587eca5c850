/**
 * `odbcshell_cli_loop`: read lines, gather them into a buffer, hand the
 * buffer to `odbcshell_interpret_buffer`, and act on its outcome.
 *
 * The lines `readline` returns are the sequence `inputs`; its end is the
 * NULL that `readline` returns at end of input. What the loop shows is
 * recorded as the prompts it passes to `readline`. The configuration is of
 * any type `S`, threaded through the interpreter as in `Interpret`.
 */
module Cli {
  import opened Text
  import opened Parsing
  import opened Interpret

  /** The prompt shown while a statement is being continued. */
  const ContinuePrompt := "> "

  /** The prompt for the next line: the configured one on an empty buffer. */
  function Prompt(buffer: seq<char>, prompt: string): string
  {
    if |buffer| == 0 then prompt else ContinuePrompt
  }

  /** Whether a space goes between the buffer and the next line. */
  predicate NeedsSpace(buffer: seq<char>)
  {
    |buffer| > 0 && buffer[|buffer| - 1] != ' ' && buffer[|buffer| - 1] != '\t'
  }

  /** The buffer after a non-empty line has been appended. */
  function Joined(buffer: seq<char>, input: string): seq<char>
  {
    if NeedsSpace(buffer) then buffer + " " + input else buffer + input
  }

  /**
   * The buffer keeps what it had, the line follows it unchanged, and in
   * between there is one space exactly when the buffer did not already
   * end in blank space.
   */
  lemma JoinedShape(buffer: seq<char>, input: string)
    ensures var b := Joined(buffer, input); var gap := if NeedsSpace(buffer) then 1 else 0;
            |b| == |buffer| + gap + |input| &&
            b[..|buffer|] == buffer && b[|buffer| + gap..] == input &&
            (gap == 1 ==> b[|buffer|] == ' ')
  {
    var b := Joined(buffer, input);
    if NeedsSpace(buffer) {
      assert b == buffer + (" " + input);
      assert b[|buffer| + 1..] == input;
    } else {
      assert b[|buffer|..] == input;
    }
  }

  /** The appended buffer ends as the line does. */
  lemma JoinedLast(buffer: seq<char>, input: string)
    requires |input| > 0
    ensures var b := Joined(buffer, input); |b| > 0 && b[|b| - 1] == input[|input| - 1]
  {
    var b := Joined(buffer, input);
    JoinedShape(buffer, input);
    assert b[|b| - 1] == b[|buffer| + (if NeedsSpace(buffer) then 1 else 0)..][|input| - 1];
  }

  /** Joining lines without NUL gives a buffer without NUL. */
  lemma JoinedNoNul(buffer: seq<char>, input: string)
    requires NoNul(buffer) && NoNul(input)
    ensures NoNul(Joined(buffer, input))
  {
    JoinedShape(buffer, input);
    var b := Joined(buffer, input);
    var gap := if NeedsSpace(buffer) then 1 else 0;
    forall i | 0 <= i < |b| ensures b[i] != '\0' {
      if i < |buffer| {
        assert b[i] == b[..|buffer|][i];
      } else if i >= |buffer| + gap {
        assert b[i] == b[|buffer| + gap..][i - |buffer| - gap];
      }
    }
  }

  // ---------------------------------------------------------------------------
  // The size of the reallocated buffer
  // ---------------------------------------------------------------------------

  /** Bytes the appended buffer needs: its characters and the terminating NUL. */
  function Needed(buffer: seq<char>, input: string): nat
  {
    |Joined(buffer, input)| + 1
  }

  /** The size `odbcshell_cli_loop` passes to `realloc`: both lengths and one byte for the NUL. */
  function AllocatedAsWritten(buffer: seq<char>, input: string): nat
  {
    |buffer| + |input| + 1
  }

  /**
   * A line `'a` opens a quote it does not close, so the buffer keeps it for
   * more input; the next line `b'` then needs `'a b'` and a NUL, six bytes,
   * where five are allocated.
   */
  lemma AllocationShort<S>(cnf: S, handle: (S, Handler, seq<string>) -> (S, int), continues: S -> bool)
    ensures LineStep([], cnf, "'a", handle, continues) == Read("'a", cnf)
    ensures Needed("'a", "b'") == 6 && AllocatedAsWritten("'a", "b'") == 5
  {
    var a := "'a";
    assert Joined([], a) == a;
    QuoteNeverCloses(a, 0, []);
    assert [] + a == a;
    assert Joined(a, "b'") == "'a b'";
  }

  /** The size with room for the separating space as well. */
  function Allocated(buffer: seq<char>, input: string): nat
  {
    |buffer| + |input| + 2
  }

  /** Whatever the buffer and the line, the corrected size holds the appended buffer. */
  lemma AllocationSuffices(buffer: seq<char>, input: string)
    ensures Needed(buffer, input) <= Allocated(buffer, input)
    ensures Needed(buffer, input) <= AllocatedAsWritten(buffer, input) <==> !NeedsSpace(buffer)
  {
    JoinedShape(buffer, input);
  }

  // ---------------------------------------------------------------------------
  // The session
  // ---------------------------------------------------------------------------

  /** One line either ends the session with a code or leaves a buffer and a configuration to go on with. */
  datatype Step<S> = Done(code: int, cnf: S) | Read(buffer: seq<char>, cnf: S)

  /**
   * One turn of the loop on a line: an empty line changes nothing; a line
   * that leaves the buffer ending in a backslash is not interpreted yet;
   * otherwise the buffer is interpreted, outcome 1 ends the session with 0,
   * -1 ends it with -1 unless the configuration says to continue, 2 keeps
   * the buffer (as the parser rewrote it) for more input, and anything else
   * empties it.
   */
  function LineStep<S>(buffer: seq<char>, cnf: S, input: string,
                       handle: (S, Handler, seq<string>) -> (S, int), continues: S -> bool): Step<S>
  {
    if |input| == 0 then Read(buffer, cnf)
    else
      var b := Joined(buffer, input);
      if b[|b| - 1] == '\\' then Read(b, cnf)
      else
        var r := InterpretAll(b, cnf, handle, continues);
        if r.code == 1 then Done(0, r.cnf)
        else if r.code == -1 && !continues(r.cnf) then Done(-1, r.cnf)
        else if r.code == 2 then Read(r.buf, r.cnf)
        else Read([], r.cnf)
  }

  /** How a session ends: the code returned, the configuration, and every prompt shown. */
  datatype Ended<S> = Ended(code: int, cnf: S, prompts: seq<string>)

  /** The loop from line `i` on, with `buffer` gathered so far; the end of `inputs` returns 0. */
  function Session<S>(inputs: seq<string>, i: nat, buffer: seq<char>, cnf: S, prompt: string,
                      handle: (S, Handler, seq<string>) -> (S, int), continues: S -> bool): Ended<S>
    requires i <= |inputs|
    decreases |inputs| - i
  {
    var shown := [Prompt(buffer, prompt)];
    if i == |inputs| then Ended(0, cnf, shown)
    else
      match LineStep(buffer, cnf, inputs[i], handle, continues)
      case Done(code, c) => Ended(code, c, shown)
      case Read(b, c) =>
        var rest := Session(inputs, i + 1, b, c, prompt, handle, continues);
        Ended(rest.code, rest.cnf, shown + rest.prompts)
  }

  /** A whole session: it starts with an empty buffer. */
  function Cli<S>(inputs: seq<string>, cnf: S, prompt: string,
                  handle: (S, Handler, seq<string>) -> (S, int), continues: S -> bool): Ended<S>
  {
    Session(inputs, 0, [], cnf, prompt, handle, continues)
  }

  // ---------------------------------------------------------------------------
  // Properties of a session
  // ---------------------------------------------------------------------------

  /** A line ends the session with 0 or -1, and with -1 only when the configuration does not say to continue. */
  lemma LineOutcome<S>(buffer: seq<char>, cnf: S, input: string,
                       handle: (S, Handler, seq<string>) -> (S, int), continues: S -> bool)
    ensures var s := LineStep(buffer, cnf, input, handle, continues);
            s.Done? ==> (s.code == 0 || s.code == -1) && (s.code == -1 ==> !continues(s.cnf))
  {
  }

  /**
   * A session returns 0 or -1, and -1 only when the last configuration does
   * not say to continue; it shows one prompt per line it reads, plus the one
   * answered by end of input when it gets there.
   */
  lemma {:induction false} SessionOutcome<S>(inputs: seq<string>, i: nat, buffer: seq<char>, cnf: S, prompt: string,
                                             handle: (S, Handler, seq<string>) -> (S, int), continues: S -> bool)
    requires i <= |inputs|
    ensures var e := Session(inputs, i, buffer, cnf, prompt, handle, continues);
            (e.code == 0 || e.code == -1) && (e.code == -1 ==> !continues(e.cnf)) &&
            1 <= |e.prompts| <= |inputs| - i + 1 && e.prompts[0] == Prompt(buffer, prompt)
    decreases |inputs| - i
  {
    if i < |inputs| {
      LineOutcome(buffer, cnf, inputs[i], handle, continues);
      match LineStep(buffer, cnf, inputs[i], handle, continues)
      case Done(code, c) =>
      case Read(b, c) =>
        SessionOutcome(inputs, i + 1, b, c, prompt, handle, continues);
    }
  }

  /** With only empty lines left, the session shows the same prompt for each of them and at the end, and returns 0. */
  lemma {:induction false} RunsToEnd<S>(inputs: seq<string>, i: nat, buffer: seq<char>, cnf: S, prompt: string,
                                        handle: (S, Handler, seq<string>) -> (S, int), continues: S -> bool)
    requires i <= |inputs|
    requires forall k :: i <= k < |inputs| ==> |inputs[k]| == 0
    ensures Session(inputs, i, buffer, cnf, prompt, handle, continues) ==
            Ended(0, cnf, seq(|inputs| - i + 1, _ => Prompt(buffer, prompt)))
    decreases |inputs| - i
  {
    if i < |inputs| {
      RunsToEnd(inputs, i + 1, buffer, cnf, prompt, handle, continues);
      assert [Prompt(buffer, prompt)] + seq(|inputs| - i, _ => Prompt(buffer, prompt)) ==
             seq(|inputs| - i + 1, _ => Prompt(buffer, prompt));
    }
  }

  /** A line the loop ends on is the last one read: what follows it is never read. */
  lemma {:induction false} NothingAfterExit<S>(inputs: seq<string>, more: seq<string>, i: nat, buffer: seq<char>, cnf: S,
                                               prompt: string, handle: (S, Handler, seq<string>) -> (S, int),
                                               continues: S -> bool)
    requires i < |inputs| && LineStep(buffer, cnf, inputs[i], handle, continues).Done?
    ensures Session(inputs + more, i, buffer, cnf, prompt, handle, continues) ==
            Session(inputs, i, buffer, cnf, prompt, handle, continues)
  {
    assert (inputs + more)[i] == inputs[i];
  }

  /** A line ending in a backslash is held back: the next prompt is the continuation prompt. */
  lemma ContinuedLine<S>(inputs: seq<string>, i: nat, buffer: seq<char>, cnf: S, prompt: string,
                         handle: (S, Handler, seq<string>) -> (S, int), continues: S -> bool)
    requires i < |inputs| && |inputs[i]| > 0 && inputs[i][|inputs[i]| - 1] == '\\'
    ensures var e := Session(inputs, i, buffer, cnf, prompt, handle, continues);
            var rest := Session(inputs, i + 1, Joined(buffer, inputs[i]), cnf, prompt, handle, continues);
            e == Ended(rest.code, rest.cnf, [Prompt(buffer, prompt)] + rest.prompts) &&
            |e.prompts| >= 2 && e.prompts[1] == ContinuePrompt
  {
    var b := Joined(buffer, inputs[i]);
    JoinedLast(buffer, inputs[i]);
    assert LineStep(buffer, cnf, inputs[i], handle, continues) == Read(b, cnf);
    SessionOutcome(inputs, i + 1, b, cnf, prompt, handle, continues);
  }

  /** An empty line is read and changes nothing: the same prompt comes back. */
  lemma BlankLine<S>(inputs: seq<string>, i: nat, buffer: seq<char>, cnf: S, prompt: string,
                     handle: (S, Handler, seq<string>) -> (S, int), continues: S -> bool)
    requires i < |inputs| && |inputs[i]| == 0
    ensures var e := Session(inputs, i, buffer, cnf, prompt, handle, continues);
            var rest := Session(inputs, i + 1, buffer, cnf, prompt, handle, continues);
            e == Ended(rest.code, rest.cnf, [Prompt(buffer, prompt)] + rest.prompts) &&
            |e.prompts| >= 2 && e.prompts[1] == e.prompts[0]
  {
    SessionOutcome(inputs, i + 1, buffer, cnf, prompt, handle, continues);
  }

  /**
   * A buffer that starts with `;` or a newline starts with an empty
   * statement, which asks for more input every time: the buffer is kept and
   * grows, no statement in it is ever dispatched (an exit included), and the
   * session only ends at end of input, with 0 and the configuration as it was.
   */
  lemma {:induction false} StuckOnTerminator<S>(inputs: seq<string>, i: nat, buffer: seq<char>, cnf: S, prompt: string,
                                                handle: (S, Handler, seq<string>) -> (S, int), continues: S -> bool)
    requires i <= |inputs| && |buffer| > 0 && (buffer[0] == ';' || buffer[0] == '\n')
    ensures Session(inputs, i, buffer, cnf, prompt, handle, continues) ==
            Ended(0, cnf, seq(|inputs| - i + 1, _ => ContinuePrompt))
    decreases |inputs| - i
  {
    if i < |inputs| {
      var s := LineStep(buffer, cnf, inputs[i], handle, continues);
      StuckLine(buffer, cnf, inputs[i], handle, continues);
      StuckOnTerminator(inputs, i + 1, s.buffer, cnf, prompt, handle, continues);
      assert [ContinuePrompt] + seq(|inputs| - i, _ => ContinuePrompt) == seq(|inputs| - i + 1, _ => ContinuePrompt);
    }
  }

  /** A line read onto a buffer that starts with `;` or a newline is kept with it, and nothing runs. */
  lemma StuckLine<S>(buffer: seq<char>, cnf: S, input: string,
                     handle: (S, Handler, seq<string>) -> (S, int), continues: S -> bool)
    requires |buffer| > 0 && (buffer[0] == ';' || buffer[0] == '\n')
    ensures var s := LineStep(buffer, cnf, input, handle, continues);
            s.Read? && s.cnf == cnf && |s.buffer| > 0 && s.buffer[0] == buffer[0]
  {
    if |input| > 0 {
      var b := Joined(buffer, input);
      JoinedShape(buffer, input);
      assert b[0] == b[..|buffer|][0];
      if b[|b| - 1] != '\\' {
        LeadingTerminator(b, 0, 0, cnf, handle, continues);
      }
    }
  }

  /** A first line that is `;` alone is kept forever: whatever is typed after it, `quit` included, never runs. */
  lemma LoneSemicolon<S>(more: seq<string>, cnf: S, prompt: string,
                         handle: (S, Handler, seq<string>) -> (S, int), continues: S -> bool)
    ensures Cli([";"] + more, cnf, prompt, handle, continues) ==
            Ended(0, cnf, [prompt] + seq(|more| + 1, _ => ContinuePrompt))
  {
    var inputs := [";"] + more;
    assert Joined([], ";") == ";";
    LeadingTerminator(";", 0, 0, cnf, handle, continues);
    assert LineStep([], cnf, inputs[0], handle, continues) == Read(";", cnf);
    StuckOnTerminator(inputs, 1, ";", cnf, prompt, handle, continues);
  }

  /**
   * A statement left incomplete keeps the whole buffer, so the statements
   * before it in the buffer are interpreted again once it is completed.
   */
  lemma IncompleteKeepsBuffer<S>(buffer: seq<char>, cnf: S, input: string,
                                 handle: (S, Handler, seq<string>) -> (S, int), continues: S -> bool)
    requires |input| > 0 && input[|input| - 1] != '\\'
    requires InterpretAll(Joined(buffer, input), cnf, handle, continues).code == 2
    ensures var b := Joined(buffer, input);
            var s := LineStep(buffer, cnf, input, handle, continues);
            s.Read? && RewritesTo(b, s.buffer) && |s.buffer| == |buffer| + |input| + (if NeedsSpace(buffer) then 1 else 0)
  {
    var b := Joined(buffer, input);
    JoinedShape(buffer, input);
    JoinedLast(buffer, input);
    InterpretFacts(b, 0, 0, cnf, handle, continues);
  }

  // ---------------------------------------------------------------------------
  // The loop
  // ---------------------------------------------------------------------------

  /** A buffer the parser rewrote holds no NUL if it held none: it only turns characters into spaces. */
  lemma RewritesKeepNoNul(s: seq<char>, t: seq<char>)
    requires NoNul(s) && RewritesTo(s, t)
    ensures NoNul(t)
  {
  }

  /** The appended buffer in an array of the corrected size, the rest filled with NULs. */
  lemma TerminatedAt(b: seq<char>, a: seq<char>)
    requires NoNul(b) && |b| < |a| && a[..|b|] == b && forall k :: |b| <= k < |a| ==> a[k] == '\0'
    ensures StrLen(a) == |b| && a[..StrLen(a)] == b
  {
    StrLenAt(a, 0, |b|);
    assert a[0..] == a;
  }

  /**
   * One turn of `odbcshell_cli_loop` after `readline` returned `input`:
   * append it to the buffer in a reallocated array, hold it back when it
   * ends in a backslash, else interpret the array in place and act on the
   * outcome.
   */
  method Feed<S>(buffer: seq<char>, cnf: S, input: string,
                 handle: (S, Handler, seq<string>) -> (S, int), continues: S -> bool)
    returns (done: bool, code: int, buffer': seq<char>, cnf': S)
    requires NoNul(buffer) && NoNul(input)
    ensures done ==> LineStep(buffer, cnf, input, handle, continues) == Done(code, cnf')
    ensures !done ==> LineStep(buffer, cnf, input, handle, continues) == Read(buffer', cnf') && NoNul(buffer')
  {
    if |input| == 0 {
      return false, 0, buffer, cnf;
    }
    var b := Joined(buffer, input);
    JoinedNoNul(buffer, input);
    AllocationSuffices(buffer, input);
    var size := Allocated(buffer, input);
    var arr := new char[size](k => if 0 <= k < |b| then b[k] else '\0');
    assert arr[..|b|] == b;
    TerminatedAt(b, arr[..]);
    if arr[|b| - 1] == '\\' {
      return false, 0, b, cnf;
    }
    var outcome, offset, c := InterpretBuffer(arr, cnf, handle, continues);
    ghost var r := InterpretAll(b, cnf, handle, continues);
    InterpretFacts(b, 0, 0, cnf, handle, continues);
    RewritesKeepNoNul(b, r.buf);
    assert arr[..|b|] == r.buf;
    if outcome == 1 {
      return true, 0, [], c;
    } else if outcome == -1 && !continues(c) {
      return true, -1, [], c;
    } else if outcome == 2 {
      return false, 0, arr[..|b|], c;
    }
    return false, 0, [], c;
  }

  /** The loop so far: the prompts shown, then what the loop shows from line `i` on, is the whole session. */
  ghost predicate SoFar<S>(inputs: seq<string>, cnf: S, prompt: string,
                           handle: (S, Handler, seq<string>) -> (S, int), continues: S -> bool,
                           i: nat, buffer: seq<char>, c: S, prompts: seq<string>)
    requires i <= |inputs|
  {
    var rest := Session(inputs, i, buffer, c, prompt, handle, continues);
    Cli(inputs, cnf, prompt, handle, continues) == Ended(rest.code, rest.cnf, prompts + rest.prompts)
  }

  /** A line the loop ends on decides the session. */
  lemma DoneStep<S>(inputs: seq<string>, cnf: S, prompt: string,
                    handle: (S, Handler, seq<string>) -> (S, int), continues: S -> bool,
                    i: nat, buffer: seq<char>, c: S, prompts: seq<string>, code: int, c': S)
    requires i < |inputs| && SoFar(inputs, cnf, prompt, handle, continues, i, buffer, c, prompts)
    requires LineStep(buffer, c, inputs[i], handle, continues) == Done(code, c')
    ensures Cli(inputs, cnf, prompt, handle, continues) == Ended(code, c', prompts + [Prompt(buffer, prompt)])
  {
  }

  /** A line the loop goes on after passes the session on to the next line. */
  lemma ReadStep<S>(inputs: seq<string>, cnf: S, prompt: string,
                    handle: (S, Handler, seq<string>) -> (S, int), continues: S -> bool,
                    i: nat, buffer: seq<char>, c: S, prompts: seq<string>, b: seq<char>, c': S)
    requires i < |inputs| && SoFar(inputs, cnf, prompt, handle, continues, i, buffer, c, prompts)
    requires LineStep(buffer, c, inputs[i], handle, continues) == Read(b, c')
    ensures SoFar(inputs, cnf, prompt, handle, continues, i + 1, b, c', prompts + [Prompt(buffer, prompt)])
  {
    var rest := Session(inputs, i + 1, b, c', prompt, handle, continues);
    assert prompts + ([Prompt(buffer, prompt)] + rest.prompts) == prompts + [Prompt(buffer, prompt)] + rest.prompts;
  }

  /** `odbcshell_cli_loop` from its first `readline` on. */
  method CliLoop<S>(inputs: seq<string>, cnf: S, prompt: string,
                    handle: (S, Handler, seq<string>) -> (S, int), continues: S -> bool)
    returns (code: int, cnf': S, prompts: seq<string>)
    requires forall k :: 0 <= k < |inputs| ==> NoNul(inputs[k])
    ensures Ended(code, cnf', prompts) == Cli(inputs, cnf, prompt, handle, continues)
  {
    var buffer: seq<char> := [];
    cnf', prompts := cnf, [];
    var i := 0;
    while i < |inputs|
      invariant i <= |inputs| && NoNul(buffer)
      invariant SoFar(inputs, cnf, prompt, handle, continues, i, buffer, cnf', prompts)
    {
      var done, c, b, c' := Feed(buffer, cnf', inputs[i], handle, continues);
      if done {
        DoneStep(inputs, cnf, prompt, handle, continues, i, buffer, cnf', prompts, c, c');
        return c, c', prompts + [Prompt(buffer, prompt)];
      }
      ReadStep(inputs, cnf, prompt, handle, continues, i, buffer, cnf', prompts, b, c');
      prompts := prompts + [Prompt(buffer, prompt)];
      buffer, cnf' := b, c';
      i := i + 1;
    }
    prompts := prompts + [Prompt(buffer, prompt)];
    code := 0;
  }
}
