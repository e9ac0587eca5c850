/**
 * The result-set loop of `odbcshell_odbc_result`: for every result set an
 * executed statement produces, describe its columns, hand it to the
 * renderer of the current format, report a summary, and ask the driver
 * for more results.
 *
 * The driver is replaced by its answers: each result set says whether
 * counting or describing its columns fails, which columns and rows it
 * has, whether the fetch ends in an error, and how many rows a statement
 * without columns affected; `ending` is what `SQLMoreResults` answers
 * after the last set.
 */
module Results {
  import opened Render

  /** What `SQLNumResultCols` and `SQLDescribeCol` report for one result set. */
  datatype Shape =
    | CountFails             // SQLNumResultCols fails
    | DescribeFails          // SQLDescribeCol fails for some column
    | Columns(cols: seq<Column>)

  /** One result set as the driver delivers it. */
  datatype ResultSet = ResultSet(shape: Shape, rows: seq<seq<Cell>>, fetchFails: bool, affected: int)

  /** What `SQLMoreResults` answers once the last result set is done. */
  datatype Ending = NoMore | MoreFails

  /**
   * What the loop writes, in order: text for the output stream (the output
   * file when one is set), the per-set summary line, and the message for a
   * statement without columns; the last two go to the terminal.
   */
  datatype Output = Data(text: string) | Summary(number: nat, rows: nat) | Affected(count: int)

  /** Exit code and everything written. */
  datatype Outcome = Outcome(code: int, log: seq<Output>)

  /** One result set's contribution: it either ends the loop with a code or lets it go on. */
  datatype SetOutcome = Stop(code: int, log: seq<Output>) | Next(log: seq<Output>)

  const XmlProlog := "<?xml version=\"1.0\" encoding=\"ISO-8859-1\"?>\n<result>\n"
  const XmlClose := "</result>\n"

  /** Every row the driver returns has one cell per described column. */
  predicate Shaped(s: ResultSet)
  {
    s.shape.Columns? ==> forall k :: 0 <= k < |s.rows| ==> |s.rows[k]| == |s.shape.cols|
  }

  predicate AllShaped(sets: seq<ResultSet>)
  {
    forall k :: 0 <= k < |sets| ==> Shaped(sets[k])
  }

  function Prolog(f: Format): seq<Output>
  {
    if f == Xml then [Data(XmlProlog)] else []
  }

  function Closing(f: Format): seq<Output>
  {
    if f == Xml then [Data(XmlClose)] else []
  }

  /** The summary line, which XML output to the terminal leaves out. */
  function Summarized(f: Format, toFile: bool, n: nat, rows: nat): seq<Output>
  {
    if f != Xml || toFile then [Summary(n, rows)] else []
  }

  /** What the renderer of `f` returns, writes and counts for a described result set. */
  function Rendered(f: Format, s: ResultSet): Fetched
    requires Shaped(s) && s.shape.Columns?
  {
    FetchFrom(f, s.shape.cols, s.rows, s.fetchFails, 0)
  }

  /** One turn of the loop on result set number `n`. */
  function OneSet(f: Format, toFile: bool, s: ResultSet, n: nat): SetOutcome
    requires Shaped(s)
  {
    match s.shape
    case CountFails => Stop(-1, [])
    case DescribeFails => Stop(-1, [])
    case Columns(cols) =>
      if |cols| == 0 then Stop(0, [Affected(s.affected)])
      else if f == Unset then Next(Summarized(f, toFile, n, 0))
      else
        var r := Rendered(f, s);
        var data := [Data(Header(f, cols) + r.out)];
        if r.code != 0 then Stop(r.code, data)
        else Next(data + Summarized(f, toFile, n, r.rows))
  }

  /** What each result set does to the loop, in order, numbered from 1. */
  function Outcomes(f: Format, toFile: bool, sets: seq<ResultSet>): (outs: seq<SetOutcome>)
    requires AllShaped(sets)
    ensures |outs| == |sets|
    ensures forall k :: 0 <= k < |sets| ==> outs[k] == OneSet(f, toFile, sets[k], k + 1)
  {
    seq(|sets|, k requires 0 <= k < |sets| && Shaped(sets[k]) => OneSet(f, toFile, sets[k], k + 1))
  }

  /**
   * The loop from result set `i` on, given what each set does: a set that
   * stops the loop decides the code; after the last set that lets it go on
   * come the XML closing tag and what `SQLMoreResults` answered.
   */
  function Chain(f: Format, ending: Ending, outs: seq<SetOutcome>, i: nat): Outcome
    requires i < |outs|
    decreases |outs| - i
  {
    match outs[i]
    case Stop(code, log) => Outcome(code, log)
    case Next(log) =>
      if i + 1 < |outs| then
        var rest := Chain(f, ending, outs, i + 1);
        Outcome(rest.code, log + rest.log)
      else
        Outcome(if ending == MoreFails then -1 else 0, log + Closing(f))
  }

  /** The whole of `odbcshell_odbc_result`: the XML prolog, then the loop. */
  function Results(f: Format, toFile: bool, sets: seq<ResultSet>, ending: Ending): Outcome
    requires 0 < |sets| && AllShaped(sets)
  {
    var r := Chain(f, ending, Outcomes(f, toFile, sets), 0);
    Outcome(r.code, Prolog(f) + r.log)
  }

  /** A result set after which the loop asks for more: described, with columns, fetched without error. */
  predicate Completes(f: Format, s: ResultSet)
  {
    s.shape.Columns? && |s.shape.cols| > 0 && (f == Unset || (!s.fetchFails && ReadableFrom(s.rows, 0)))
  }

  /** A statement without columns: the loop reports the affected rows and returns. */
  predicate NoColumns(s: ResultSet)
  {
    s.shape.Columns? && |s.shape.cols| == 0
  }

  /** The first result set from `i` on that ends the loop early, or `|sets|` when none does. */
  function FirstHalt(f: Format, sets: seq<ResultSet>, i: nat): (h: nat)
    requires i <= |sets|
    ensures i <= h <= |sets|
    ensures forall k :: i <= k < h ==> Completes(f, sets[k])
    ensures h < |sets| ==> !Completes(f, sets[h])
    decreases |sets| - i
  {
    if i == |sets| || !Completes(f, sets[i]) then i else FirstHalt(f, sets, i + 1)
  }

  /** The first outcome from `i` on that stops the loop, or `|outs|` when none does. */
  function FirstStop(outs: seq<SetOutcome>, i: nat): (h: nat)
    requires i <= |outs|
    ensures i <= h <= |outs|
    ensures forall k :: i <= k < h ==> outs[k].Next?
    ensures h < |outs| ==> outs[h].Stop?
    decreases |outs| - i
  {
    if i == |outs| || outs[i].Stop? then i else FirstStop(outs, i + 1)
  }

  /**
   * One result set's outcome: it lets the loop go on exactly when it
   * completes, it stops with 0 exactly when it has no columns, and the
   * only summary it writes is its own, with all of its rows counted.
   */
  lemma OneSetOutcome(f: Format, toFile: bool, s: ResultSet, n: nat)
    requires Shaped(s)
    ensures OneSet(f, toFile, s, n).Next? <==> Completes(f, s)
    ensures OneSet(f, toFile, s, n).Stop? ==>
              (OneSet(f, toFile, s, n).code == 0 <==> NoColumns(s))
    ensures forall e :: e in OneSet(f, toFile, s, n).log && e.Summary? ==>
              e.number == n && (f != Xml || toFile) && Completes(f, s) &&
              e.rows == (if f == Unset then 0 else |s.rows|)
  {
    if s.shape.Columns? && |s.shape.cols| > 0 && f != Unset {
      FetchOutcome(f, s.shape.cols, s.rows, s.fetchFails, 0);
    }
  }

  /** The chain returns 0 exactly when its first stop is a 0, or when nothing stops it and no error follows. */
  lemma {:induction false} ChainCode(f: Format, ending: Ending, outs: seq<SetOutcome>, i: nat)
    requires i < |outs|
    ensures var h := FirstStop(outs, i);
            Chain(f, ending, outs, i).code == 0 <==>
              (h < |outs| && outs[h].code == 0) || (h == |outs| && ending == NoMore)
    decreases |outs| - i
  {
    if outs[i].Next? && i + 1 < |outs| {
      ChainCode(f, ending, outs, i + 1);
    }
  }

  /** Everything the chain writes comes from one of its sets, or is the closing tag. */
  lemma {:induction false} ChainLog(f: Format, ending: Ending, outs: seq<SetOutcome>, i: nat)
    requires i < |outs|
    ensures forall e :: e in Chain(f, ending, outs, i).log ==>
              e in Closing(f) || exists k :: i <= k < |outs| && e in outs[k].log
    decreases |outs| - i
  {
    if outs[i].Next? && i + 1 < |outs| {
      ChainLog(f, ending, outs, i + 1);
    }
  }

  /** When nothing stops the chain, XML output ends with `</result>`, whatever `SQLMoreResults` answered. */
  lemma {:induction false} ChainCloses(ending: Ending, outs: seq<SetOutcome>, i: nat)
    requires i < |outs| && FirstStop(outs, i) == |outs|
    ensures var log := Chain(Xml, ending, outs, i).log;
            |log| > 0 && log[|log| - 1] == Data(XmlClose)
    decreases |outs| - i
  {
    if i + 1 < |outs| {
      ChainCloses(ending, outs, i + 1);
    }
  }

  /** The loop stops at the first result set that does not complete. */
  lemma {:induction false} HaltsAgree(f: Format, toFile: bool, sets: seq<ResultSet>, i: nat)
    requires i <= |sets| && AllShaped(sets)
    ensures FirstStop(Outcomes(f, toFile, sets), i) == FirstHalt(f, sets, i)
    decreases |sets| - i
  {
    if i < |sets| {
      OneSetOutcome(f, toFile, sets[i], i + 1);
      HaltsAgree(f, toFile, sets, i + 1);
    }
  }

  /**
   * `odbcshell_odbc_result` returns 0 exactly when it reaches a statement
   * without columns before anything fails, or when every result set
   * completes and the driver then reports no more results.
   */
  lemma ResultsCode(f: Format, toFile: bool, sets: seq<ResultSet>, ending: Ending)
    requires 0 < |sets| && AllShaped(sets)
    ensures var h := FirstHalt(f, sets, 0);
            Results(f, toFile, sets, ending).code == 0 <==>
              (h < |sets| && NoColumns(sets[h])) || (h == |sets| && ending == NoMore)
  {
    var outs := Outcomes(f, toFile, sets);
    ChainCode(f, ending, outs, 0);
    HaltsAgree(f, toFile, sets, 0);
    var h := FirstHalt(f, sets, 0);
    if h < |sets| {
      OneSetOutcome(f, toFile, sets[h], h + 1);
    }
  }

  /** A summary in what set `k` writes is its own, with all of its rows counted. */
  lemma SummaryOf(f: Format, toFile: bool, sets: seq<ResultSet>, k: nat, e: Output)
    requires k < |sets| && AllShaped(sets)
    requires e in Outcomes(f, toFile, sets)[k].log && e.Summary?
    ensures (f != Xml || toFile) && e.number == k + 1 && Completes(f, sets[k]) &&
            e.rows == (if f == Unset then 0 else |sets[k].rows|)
    ensures 0 < e.number <= |sets| && Completes(f, sets[e.number - 1]) &&
            e.rows == (if f == Unset then 0 else |sets[e.number - 1].rows|)
  {
    OneSetOutcome(f, toFile, sets[k], k + 1);
  }

  /** The summaries the loop writes from the first set on. */
  lemma ChainSummaries(f: Format, toFile: bool, sets: seq<ResultSet>, ending: Ending)
    requires 0 < |sets| && AllShaped(sets)
    ensures forall e :: e in Chain(f, ending, Outcomes(f, toFile, sets), 0).log && e.Summary? ==>
              (f != Xml || toFile) && 0 < e.number <= |sets| && Completes(f, sets[e.number - 1]) &&
              e.rows == (if f == Unset then 0 else |sets[e.number - 1].rows|)
  {
    var outs := Outcomes(f, toFile, sets);
    ChainLog(f, ending, outs, 0);
    forall e | e in Chain(f, ending, outs, 0).log && e.Summary?
      ensures (f != Xml || toFile) && 0 < e.number <= |sets| && Completes(f, sets[e.number - 1]) &&
              e.rows == (if f == Unset then 0 else |sets[e.number - 1].rows|)
    {
      var k :| 0 <= k < |outs| && e in outs[k].log;
      SummaryOf(f, toFile, sets, k, e);
    }
  }

  /**
   * Every summary reports a set that was rendered, numbered from 1, with
   * all of its rows counted; XML output to the terminal has no summaries.
   */
  lemma SummaryRows(f: Format, toFile: bool, sets: seq<ResultSet>, ending: Ending)
    requires 0 < |sets| && AllShaped(sets)
    ensures forall e :: e in Results(f, toFile, sets, ending).log && e.Summary? ==>
              (f != Xml || toFile) && 0 < e.number <= |sets| && Completes(f, sets[e.number - 1]) &&
              e.rows == (if f == Unset then 0 else |sets[e.number - 1].rows|)
  {
    ChainSummaries(f, toFile, sets, ending);
  }

  /** When every set completes, XML output is closed by `</result>` even when `SQLMoreResults` then fails. */
  lemma XmlClosed(toFile: bool, sets: seq<ResultSet>, ending: Ending)
    requires 0 < |sets| && AllShaped(sets)
    requires FirstHalt(Xml, sets, 0) == |sets|
    ensures var log := Results(Xml, toFile, sets, ending).log;
            |log| > 0 && log[|log| - 1] == Data(XmlClose)
  {
    HaltsAgree(Xml, toFile, sets, 0);
    ChainCloses(ending, Outcomes(Xml, toFile, sets), 0);
  }

  /** A statement without columns as the first result: only its affected-row count is reported. */
  lemma NoColumnsFirst(f: Format, toFile: bool, sets: seq<ResultSet>, ending: Ending)
    requires 0 < |sets| && AllShaped(sets) && NoColumns(sets[0])
    ensures Results(f, toFile, sets, ending) == Outcome(0, Prolog(f) + [Affected(sets[0].affected)])
  {
  }

  /** One turn of the loop: describe the set, render it, count its rows. */
  method ShowSet(f: Format, toFile: bool, s: ResultSet, n: nat) returns (stop: bool, code: int, log: seq<Output>)
    requires Shaped(s)
    ensures stop ==> OneSet(f, toFile, s, n) == Stop(code, log)
    ensures !stop ==> OneSet(f, toFile, s, n) == Next(log)
  {
    match s.shape
    case CountFails =>
      return true, -1, [];
    case DescribeFails =>
      return true, -1, [];
    case Columns(cols) =>
      if |cols| == 0 {
        return true, 0, [Affected(s.affected)];
      }
      var rows: nat := 0;
      log := [];
      if f != Unset {
        var err, out, count := FetchRows(f, cols, s.rows, s.fetchFails);
        log := [Data(Header(f, cols) + out)];
        if err != 0 {
          return true, err, log;
        }
        rows := count;
      }
      log := log + Summarized(f, toFile, n, rows);
      return false, 0, log;
  }

  /** The loop so far: `log` followed by what the loop writes from set `i` on is the whole output. */
  ghost predicate SoFar(f: Format, toFile: bool, sets: seq<ResultSet>, ending: Ending, i: nat, log: seq<Output>)
    requires i < |sets| && AllShaped(sets)
  {
    var rest := Chain(f, ending, Outcomes(f, toFile, sets), i);
    Results(f, toFile, sets, ending) == Outcome(rest.code, log + rest.log)
  }

  /** A set that stops the loop decides the outcome. */
  lemma StopStep(f: Format, toFile: bool, sets: seq<ResultSet>, ending: Ending, i: nat, log: seq<Output>, code: int, setLog: seq<Output>)
    requires i < |sets| && AllShaped(sets) && SoFar(f, toFile, sets, ending, i, log)
    requires OneSet(f, toFile, sets[i], i + 1) == Stop(code, setLog)
    ensures Results(f, toFile, sets, ending) == Outcome(code, log + setLog)
  {
  }

  /**
   * A completed set that is not the last: what the loop writes from it on is
   * its output, then what the later sets give.
   */
  lemma ChainNext(f: Format, ending: Ending, outs: seq<SetOutcome>, i: nat, log: seq<Output>, setLog: seq<Output>, whole: Outcome)
    requires i + 1 < |outs| && outs[i] == Next(setLog)
    requires var here := Chain(f, ending, outs, i); whole == Outcome(here.code, log + here.log)
    ensures var rest := Chain(f, ending, outs, i + 1); whole == Outcome(rest.code, log + setLog + rest.log)
  {
    var rest := Chain(f, ending, outs, i + 1);
    assert log + (setLog + rest.log) == log + setLog + rest.log;
  }

  /** A completed set that is not the last hands the loop on to the next one. */
  lemma NextStep(f: Format, toFile: bool, sets: seq<ResultSet>, ending: Ending, i: nat, log: seq<Output>, setLog: seq<Output>)
    requires i + 1 < |sets| && AllShaped(sets) && SoFar(f, toFile, sets, ending, i, log)
    requires OneSet(f, toFile, sets[i], i + 1) == Next(setLog)
    ensures SoFar(f, toFile, sets, ending, i + 1, log + setLog)
  {
    ChainNext(f, ending, Outcomes(f, toFile, sets), i, log, setLog, Results(f, toFile, sets, ending));
  }

  /** After the last completed set come the closing tag and what `SQLMoreResults` answered. */
  lemma LastStep(f: Format, toFile: bool, sets: seq<ResultSet>, ending: Ending, i: nat, log: seq<Output>, setLog: seq<Output>)
    requires i + 1 == |sets| && AllShaped(sets) && SoFar(f, toFile, sets, ending, i, log)
    requires OneSet(f, toFile, sets[i], i + 1) == Next(setLog)
    ensures Results(f, toFile, sets, ending) == Outcome(if ending == MoreFails then -1 else 0, log + setLog + Closing(f))
  {
    assert log + (setLog + Closing(f)) == log + setLog + Closing(f);
  }

  /** `odbcshell_odbc_result`: the prolog, then one turn per result set while the driver has more. */
  method ShowResults(f: Format, toFile: bool, sets: seq<ResultSet>, ending: Ending) returns (code: int, log: seq<Output>)
    requires 0 < |sets| && AllShaped(sets)
    ensures Outcome(code, log) == Results(f, toFile, sets, ending)
  {
    log := Prolog(f);
    var i := 0;
    while true
      invariant 0 <= i < |sets|
      invariant SoFar(f, toFile, sets, ending, i, log)
      decreases |sets| - i
    {
      var stop, c, setLog := ShowSet(f, toFile, sets[i], i + 1);
      if stop {
        StopStep(f, toFile, sets, ending, i, log, c, setLog);
        return c, log + setLog;
      }
      if i + 1 == |sets| {
        LastStep(f, toFile, sets, ending, i, log, setLog);
        return if ending == MoreFails then -1 else 0, log + setLog + Closing(f);
      }
      NextStep(f, toFile, sets, ending, i, log, setLog);
      log := log + setLog;
      i := i + 1;
    }
  }
}
