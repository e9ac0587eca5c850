/**
 * The command table of the shell and its two lookups.
 * The table is a constant array closed by a sentinel entry whose name is NULL;
 * both lookups walk it up to that sentinel and hand back the sentinel itself
 * when nothing matches, so a NULL result only comes from a NULL table.
 */
module Commands {
  import opened Text

  /** The command identifiers the dispatch switch knows about. */
  datatype CmdId =
    | Alias | Clear | Connect | Disconnect | Echo | LoadConf | Help | Quit | Reconnect
    | ResetConf | SaveConf | Set | Silent | Unalias | Unset | Verbose | Version

  /** The `val` field: a command identifier, or the sentinel's -1. */
  datatype CmdVal = Id(id: CmdId) | NoVal

  /** One `{val, min_arg, max_arg, name, help}` entry; `None` stands for NULL. */
  datatype CmdOption = CmdOption(val: CmdVal, minArg: int, maxArg: int, name: Option<string>, help: Option<string>)

  const Sentinel: CmdOption := CmdOption(NoVal, -1, -1, None, None)

  /** `odbcshell_cmd_strings`. */
  const CommandTable: seq<CmdOption> := [
    CmdOption(Id(Connect),    2, 2, Some("connect"),    Some("connects to a database")),
    CmdOption(Id(Disconnect), 1, 1, Some("disconnect"), Some("disconnects from a database")),
    CmdOption(Id(Help),       1, 2, Some("help"),       Some("displays help information")),
    CmdOption(Id(Quit),       1, 1, Some("quit"),       Some("exits ODBC Shell")),
    CmdOption(Id(Reconnect),  1, 1, Some("reconnect"),  Some("reconnects to a database")),
    CmdOption(Id(Set),        1, 3, Some("set"),        Some("sets configuration option")),
    CmdOption(Id(Unset),      2, 2, Some("unset"),      Some("unsets configuration option")),
    CmdOption(Id(Version),    1, 1, Some("version"),    Some("displays version information")),
    Sentinel
  ]

  /** Index of the sentinel in `CommandTable`. */
  const SentinelIndex: nat := 8

  /** The array is closed by an entry with a NULL name somewhere at or after `u`. */
  predicate TerminatedFrom(opts: seq<CmdOption>, u: nat)
  {
    exists i :: u <= i < |opts| && opts[i].name.None?
  }

  /** Does entry `e` stop the by-name scan for `key`? */
  predicate StopsByName(e: CmdOption, key: string)
  {
    e.name.None? || EqualsIgnoreCase(key, e.name.value)
  }

  /** Does entry `e` stop the by-value scan for `val`? The NULL name is checked first. */
  predicate StopsByValue(e: CmdOption, val: CmdVal)
  {
    e.name.None? || val == e.val
  }

  /** The `for(u = ...; opts[u].name; u++)` walk of `odbcshell_lookup_opt_by_name`. */
  function ScanByName(opts: seq<CmdOption>, key: string, u: nat): (r: nat)
    requires TerminatedFrom(opts, u)
    ensures u <= r < |opts|
    ensures StopsByName(opts[r], key)
    ensures forall k :: u <= k < r ==> !StopsByName(opts[k], key)
    decreases |opts| - u
  {
    if StopsByName(opts[u], key) then u
    else
      assert TerminatedFrom(opts, u + 1) by {
        var i :| u <= i < |opts| && opts[i].name.None?;
        assert i != u;
      }
      ScanByName(opts, key, u + 1)
  }

  /** The walk of `odbcshell_lookup_opt_by_value`. */
  function ScanByValue(opts: seq<CmdOption>, val: CmdVal, u: nat): (r: nat)
    requires TerminatedFrom(opts, u)
    ensures u <= r < |opts|
    ensures StopsByValue(opts[r], val)
    ensures forall k :: u <= k < r ==> !StopsByValue(opts[k], val)
    decreases |opts| - u
  {
    if StopsByValue(opts[u], val) then u
    else
      assert TerminatedFrom(opts, u + 1) by {
        var i :| u <= i < |opts| && opts[i].name.None?;
        assert i != u;
      }
      ScanByValue(opts, val, u + 1)
  }

  /**
   * `odbcshell_lookup_opt_by_name`: the index of the first entry whose name equals
   * `name` ignoring ASCII case, else the index of the sentinel; `None` (NULL)
   * only for a NULL table.
   */
  function LookupOptByName(opts: Option<seq<CmdOption>>, name: string): (r: Option<nat>)
    requires opts.Some? ==> TerminatedFrom(opts.value, 0)
    ensures r.None? <==> opts.None?
    ensures r.Some? ==> r.value < |opts.value|
    ensures r.Some? ==> opts.value[r.value].name.None? || EqualsIgnoreCase(name, opts.value[r.value].name.value)
    ensures r.Some? ==> forall k :: 0 <= k < r.value ==>
              opts.value[k].name.Some? && !EqualsIgnoreCase(name, opts.value[k].name.value)
  {
    if opts.None? then None else Some(ScanByName(opts.value, name, 0))
  }

  /**
   * `odbcshell_lookup_opt_by_value`: the index of the first named entry whose
   * `val` is `val`, else the index of the first NULL-named entry.
   */
  function LookupOptByValue(opts: Option<seq<CmdOption>>, val: CmdVal): (r: Option<nat>)
    requires opts.Some? ==> TerminatedFrom(opts.value, 0)
    ensures r.None? <==> opts.None?
    ensures r.Some? ==> r.value < |opts.value|
    ensures r.Some? ==> opts.value[r.value].name.None? || opts.value[r.value].val == val
    ensures r.Some? ==> forall k :: 0 <= k < r.value ==>
              opts.value[k].name.Some? && opts.value[k].val != val
  {
    if opts.None? then None else Some(ScanByValue(opts.value, val, 0))
  }

  /**
   * The table is closed by the sentinel, every named entry asks for
   * 1 <= min_arg <= max_arg arguments, and no two names are equal ignoring case.
   */
  lemma CommandTableWellFormed()
    ensures |CommandTable| == SentinelIndex + 1
    ensures CommandTable[SentinelIndex] == Sentinel
    ensures TerminatedFrom(CommandTable, 0)
    ensures forall k :: 0 <= k < SentinelIndex ==> CommandTable[k].name.Some?
    ensures forall k :: 0 <= k < SentinelIndex ==> 1 <= CommandTable[k].minArg <= CommandTable[k].maxArg
    ensures forall j, k :: 0 <= j < k < SentinelIndex ==>
              !EqualsIgnoreCase(CommandTable[j].name.value, CommandTable[k].name.value)
  {
    assert CommandTable[SentinelIndex].name.None?;
    forall j, k | 0 <= j < k < SentinelIndex
      ensures !EqualsIgnoreCase(CommandTable[j].name.value, CommandTable[k].name.value)
    {
      var a, b := CommandTable[j].name.value, CommandTable[k].name.value;
      if |a| == |b| {
        assert LowerChar(a[0]) != LowerChar(b[0]);
        assert Lower(a)[0] != Lower(b)[0];
      }
    }
  }

  /** A name equal (ignoring case) to a table entry's finds that entry and no earlier one. */
  lemma LookupFindsEntry(name: string, k: nat)
    requires k < SentinelIndex
    requires EqualsIgnoreCase(name, CommandTable[k].name.value)
    ensures TerminatedFrom(CommandTable, 0)
    ensures LookupOptByName(Some(CommandTable), name) == Some(k)
  {
    CommandTableWellFormed();
  }

  /** A name matching no entry yields the sentinel, with min_arg = max_arg = -1. */
  lemma LookupUnknownIsSentinel(name: string)
    requires forall k :: 0 <= k < SentinelIndex ==> !EqualsIgnoreCase(name, CommandTable[k].name.value)
    ensures TerminatedFrom(CommandTable, 0)
    ensures LookupOptByName(Some(CommandTable), name) == Some(SentinelIndex)
    ensures CommandTable[SentinelIndex].minArg == -1 && CommandTable[SentinelIndex].maxArg == -1
  {
    CommandTableWellFormed();
  }

  /** The by-name lookup over the real table never answers NULL. */
  lemma LookupNeverNull(name: string)
    ensures TerminatedFrom(CommandTable, 0)
    ensures LookupOptByName(Some(CommandTable), name).Some?
  {
    CommandTableWellFormed();
  }

  /** Looking a table entry up by its own id finds that entry. */
  lemma LookupByValueFindsEntry(k: nat)
    requires k < SentinelIndex
    ensures TerminatedFrom(CommandTable, 0)
    ensures LookupOptByValue(Some(CommandTable), CommandTable[k].val) == Some(k)
  {
    CommandTableWellFormed();
  }

  /** An id no entry carries yields the sentinel; the sentinel's own -1 is one such id. */
  lemma LookupByValueUnknownIsSentinel(val: CmdVal)
    requires forall k :: 0 <= k < SentinelIndex ==> CommandTable[k].val != val
    ensures TerminatedFrom(CommandTable, 0)
    ensures LookupOptByValue(Some(CommandTable), val) == Some(SentinelIndex)
  {
    CommandTableWellFormed();
  }
}
