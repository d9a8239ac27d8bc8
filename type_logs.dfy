/** The per-type logs: the table of known types and their files, the bounded
    window of entries kept for each type, its counter and the text its file holds. */
module TypeLogs {
  import opened Common
  import opened BoundedLog

  /** The log files, one per known type. */
  datatype LogFile =
    | Disconnect | RobotState | RobotMessage | HmcMessage | ModbusInfoMessage
    | SafetySetupBroadcastMessage | SafetyComplianceTolerancesMessage | ProgramStateMessage

  /** The name of each log file inside the output directory: a text file. */
  function FileName(f: LogFile): (name: string)
    ensures |name| > 4 && name[|name| - 4..] == ".txt"
  {
    match f
    case Disconnect => "disconnect.txt"
    case RobotState => "robot_state.txt"
    case RobotMessage => "robot_message.txt"
    case HmcMessage => "hmc_message.txt"
    case ModbusInfoMessage => "modbus_info_message.txt"
    case SafetySetupBroadcastMessage => "safety_setup_broadcast_message.txt"
    case SafetyComplianceTolerancesMessage => "safety_compliance_tolerances_message.txt"
    case ProgramStateMessage => "program_state_message.txt"
  }

  /** No two log files share a name, so no two types write to the same file. */
  lemma FileNamesDistinct(f: LogFile, g: LogFile)
    ensures FileName(f) == FileName(g) ==> f == g
  {
  }

  /** The type codes of a table, as a set: the elements of `CodeColumn(table)`. */
  function Codes(table: seq<(int, LogFile)>): set<int>
  {
    set i | 0 <= i < |table| :: table[i].0
  }

  /** The log files of a table, as a set: the elements of `FileColumn(table)`. */
  function Files(table: seq<(int, LogFile)>): set<LogFile>
  {
    set i | 0 <= i < |table| :: table[i].1
  }

  /** The type codes of `table`, in order; `Codes` is the same column as a set. */
  function CodeColumn(table: seq<(int, LogFile)>): (codes: seq<int>)
    ensures |codes| == |table| && forall i :: 0 <= i < |table| ==> codes[i] == table[i].0
  {
    seq(|table|, i requires 0 <= i < |table| => table[i].0)
  }

  /** The log files of `table`, in order; `Files` is the same column as a set. */
  function FileColumn(table: seq<(int, LogFile)>): (files: seq<LogFile>)
    ensures |files| == |table| && forall i :: 0 <= i < |table| ==> files[i] == table[i].1
  {
    seq(|table|, i requires 0 <= i < |table| => table[i].1)
  }

  /** No type code and no file occurs twice in `table`. */
  predicate TableDistinct(table: seq<(int, LogFile)>)
  {
    Distinct(CodeColumn(table)) && Distinct(FileColumn(table))
  }

  /** The row of `table` holding `code`; with distinct codes there is only one. */
  ghost function IndexOf(table: seq<(int, LogFile)>, code: int): (i: nat)
    requires code in Codes(table)
    ensures i < |table| && table[i].0 == code
  {
    var i :| 0 <= i < |table| && table[i].0 == code; i
  }

  /** The separator line written after every entry: 80 `#` characters. */
  function Separator(): (line: string)
    ensures |line| == 80 && forall i :: 0 <= i < |line| ==> line[i] == '#'
  {
    seq(80, _ => '#')
  }

  /** How one package is stored in its log: its text, a newline, the separator
      and another newline. */
  function Entry(text: string): (entry: string)
    ensures |entry| == |text| + 82 && entry[..|text|] == text
    ensures entry[|text|] == '\n' && entry[|entry| - 1] == '\n'
    ensures forall i :: |text| < i < |entry| - 1 ==> entry[i] == '#'
  {
    text + "\n" + Separator() + "\n"
  }

  /** The position of `code` in `table`, scanning it in order and stopping at the
      first match. */
  method FindType(table: seq<(int, LogFile)>, code: int) returns (index: Option<nat>)
    ensures index.Some? <==> code in Codes(table)
    ensures index.Some? ==> index.value < |table| && table[index.value].0 == code
    ensures index.Some? ==> forall j :: 0 <= j < index.value ==> table[j].0 != code
  {
    var i := 0;
    while i < |table|
      invariant 0 <= i <= |table|
      invariant forall j :: 0 <= j < i ==> table[j].0 != code
    {
      if table[i].0 == code {
        return Some(i);
      }
      i := i + 1;
    }
    return None;
  }

  /** Every file of `table`, truncated to empty. */
  method EmptyFiles(table: seq<(int, LogFile)>) returns (files: map<LogFile, string>)
    ensures files.Keys == Files(table)
    ensures forall f :: f in files ==> files[f] == ""
  {
    files := map[];
    var i := 0;
    while i < |table|
      invariant 0 <= i <= |table|
      invariant files.Keys == set j | 0 <= j < i :: table[j].1
      invariant forall f :: f in files ==> files[f] == ""
    {
      files := files[table[i].1 := ""];
      i := i + 1;
    }
  }

  /** The text a log file is rewritten with: the window's entries written one after
      another, oldest first. */
  method WriteLog(window: seq<string>) returns (content: string)
    ensures content == Concat(window)
  {
    content := "";
    var j := 0;
    while j < |window|
      invariant 0 <= j <= |window|
      invariant content == Concat(window[..j])
    {
      ConcatSnoc(window[..j], window[j]);
      assert window[..j + 1] == window[..j] + [window[j]];
      content := content + window[j];
      j := j + 1;
    }
    assert window[..|window|] == window;
  }

  /** Each type's counter sits at its row of the table and is how many entries that
      type received, capped at `cap`. */
  ghost predicate CountsMatch(table: seq<(int, LogFile)>, counts: seq<(int, nat)>,
                              received: map<int, seq<string>>, cap: nat)
    requires Codes(table) <= received.Keys
  {
    && |counts| == |table|
    && forall i {:trigger counts[i]} :: 0 <= i < |table| ==>
         counts[i].0 == table[i].0 && counts[i].1 == Min(|received[table[i].0]|, cap)
  }

  /** Each type's file holds its window. */
  ghost predicate FilesMatch(table: seq<(int, LogFile)>, files: map<LogFile, string>,
                             windows: map<int, seq<string>>)
    requires Codes(table) <= windows.Keys && Files(table) <= files.Keys
  {
    forall i {:trigger files[table[i].1]} :: 0 <= i < |table| ==> files[table[i].1] == Concat(windows[table[i].0])
  }

  /** Each type's window is the last `cap` entries it received. */
  ghost predicate WindowsMatch(windows: map<int, seq<string>>, received: map<int, seq<string>>, cap: nat)
    requires windows.Keys <= received.Keys
  {
    forall k {:trigger windows[k]} :: k in windows ==> windows[k] == Window(received[k], cap)
  }

  /** The type logs agree with what they received: each type's window is the last
      `cap` entries it received, its counter is how many it received capped at `cap`,
      and its file holds its window. */
  ghost predicate LogsConsistent(table: seq<(int, LogFile)>, counts: seq<(int, nat)>,
                                 windows: map<int, seq<string>>, files: map<LogFile, string>,
                                 received: map<int, seq<string>>, cap: nat)
  {
    && windows.Keys == Codes(table) && received.Keys == Codes(table)
    && files.Keys == Files(table)
    && CountsMatch(table, counts, received, cap)
    && FilesMatch(table, files, windows)
    && WindowsMatch(windows, received, cap)
  }

  /** Appending an entry to one type's window keeps every window the last `cap`
      entries received. */
  lemma AppendKeepsWindows(windows: map<int, seq<string>>, received: map<int, seq<string>>,
                           cap: nat, code: int, entry: string)
    requires windows.Keys <= received.Keys && code in windows
    requires WindowsMatch(windows, received, cap)
    ensures var received' := received[code := received[code] + [entry]];
      && windows[code := Window(windows[code] + [entry], cap)].Keys <= received'.Keys
      && WindowsMatch(windows[code := Window(windows[code] + [entry], cap)], received', cap)
  {
    var received' := received[code := received[code] + [entry]];
    var windows' := windows[code := Window(windows[code] + [entry], cap)];
    forall k | k in windows'
      ensures k in received' && windows'[k] == Window(received'[k], cap)
    {
      if k == code {
        WindowAppend(received[code], entry, cap);
      }
    }
  }

  /** Appending an entry for the type at `i` bumps its counter exactly while its
      window is not full, and leaves every other counter alone. */
  lemma AppendKeepsCounts(table: seq<(int, LogFile)>, counts: seq<(int, nat)>,
                          received: map<int, seq<string>>, cap: nat, i: nat, entry: string)
    requires TableDistinct(table) && i < |table| && Codes(table) <= received.Keys
    requires CountsMatch(table, counts, received, cap)
    ensures var code := table[i].0;
      var received' := received[code := received[code] + [entry]];
      && Codes(table) <= received'.Keys
      && CountsMatch(table, counts[i := (code, if Min(|received[code]|, cap) < cap then counts[i].1 + 1 else counts[i].1)],
                     received', cap)
  {
    var code := table[i].0;
    assert code in Codes(table);
    var received' := received[code := received[code] + [entry]];
    var counts' := counts[i := (code, if Min(|received[code]|, cap) < cap then counts[i].1 + 1 else counts[i].1)];
    forall j | 0 <= j < |table|
      ensures counts'[j].0 == table[j].0 && counts'[j].1 == Min(|received'[table[j].0]|, cap)
    {
      if j == i {
        CappedCountStep(|received[code]|, cap);
      } else {
        assert CodeColumn(table)[j] != CodeColumn(table)[i];
      }
    }
  }

  /** Rewriting the file of the type at `i` with that type's new window keeps every
      file holding its type's window. */
  lemma AppendKeepsFiles(table: seq<(int, LogFile)>, files: map<LogFile, string>,
                         windows: map<int, seq<string>>, i: nat, window: seq<string>)
    requires TableDistinct(table) && i < |table|
    requires Codes(table) <= windows.Keys && Files(table) <= files.Keys
    requires FilesMatch(table, files, windows)
    ensures var windows' := windows[table[i].0 := window];
      var files' := files[table[i].1 := Concat(window)];
      && Codes(table) <= windows'.Keys && Files(table) <= files'.Keys
      && FilesMatch(table, files', windows')
  {
    var windows' := windows[table[i].0 := window];
    var files' := files[table[i].1 := Concat(window)];
    forall j | 0 <= j < |table|
      ensures files'[table[j].1] == Concat(windows'[table[j].0])
    {
      if j != i {
        assert CodeColumn(table)[j] != CodeColumn(table)[i];
        assert FileColumn(table)[j] != FileColumn(table)[i];
      }
    }
  }

  /** Appending one entry to the log of the type at `i` of the table keeps the logs
      consistent: the counter grows only while the window is not full, the window
      stays the last `cap` entries received, and the file shows the window. */
  lemma AppendKeepsLogsConsistent(table: seq<(int, LogFile)>, counts: seq<(int, nat)>,
                                  windows: map<int, seq<string>>, files: map<LogFile, string>,
                                  received: map<int, seq<string>>, cap: nat, i: nat, entry: string)
    requires TableDistinct(table) && i < |table|
    requires LogsConsistent(table, counts, windows, files, received, cap)
    ensures var code := table[i].0;
      var window := Window(windows[code] + [entry], cap);
      LogsConsistent(table, counts[i := (code, if |windows[code]| < cap then counts[i].1 + 1 else counts[i].1)],
                     windows[code := window], files[table[i].1 := Concat(window)],
                     received[code := received[code] + [entry]], cap)
  {
    var code := table[i].0;
    var window := Window(windows[code] + [entry], cap);
    assert code in Codes(table) && table[i].1 in Files(table);
    assert |windows[code]| == Min(|received[code]|, cap);
    UpdateKeys(windows, code, window);
    UpdateKeys(received, code, received[code] + [entry]);
    UpdateKeys(files, table[i].1, Concat(window));
    AppendKeepsWindows(windows, received, cap, code, entry);
    AppendKeepsCounts(table, counts, received, cap, i, entry);
    AppendKeepsFiles(table, files, windows, i, window);
  }

  /** One package of the type at `index` of `table` reaching the logs: its counter
      grows while the window is not full, its entry joins the window (the oldest
      dropping out when full) and the type's file is rewritten with the window. */
  method AppendToLog(table: seq<(int, LogFile)>, counts: seq<(int, nat)>,
                     windows: map<int, seq<string>>, files: map<LogFile, string>,
                     ghost received: map<int, seq<string>>, cap: nat, index: nat, entry: string)
    returns (counts': seq<(int, nat)>, windows': map<int, seq<string>>, files': map<LogFile, string>,
             ghost received': map<int, seq<string>>)
    requires TableDistinct(table) && index < |table|
    requires LogsConsistent(table, counts, windows, files, received, cap)
    ensures LogsConsistent(table, counts', windows', files', received', cap)
    ensures var code := table[index].0;
      && counts' == counts[index := (code, if |windows[code]| < cap then counts[index].1 + 1 else counts[index].1)]
      && windows' == windows[code := Window(windows[code] + [entry], cap)]
      && files' == files[table[index].1 := Concat(windows'[code])]
      && received' == received[code := received[code] + [entry]]
  {
    var code := table[index].0;
    AppendKeepsLogsConsistent(table, counts, windows, files, received, cap, index, entry);
    assert code in Codes(table);
    DequeAppendIsWindow(windows[code], entry, cap);
    var count := if |windows[code]| < cap then counts[index].1 + 1 else counts[index].1;
    var window := DequeAppend(windows[code], entry, cap);
    var content := WriteLog(window);
    counts' := counts[index := (code, count)];
    windows' := windows[code := window];
    files' := files[table[index].1 := content];
    received' := received[code := received[code] + [entry]];
  }

  /** One package of type `code` reaching the logs: the table is searched for the
      type; a known type's log takes the entry as `AppendToLog` does, and an unknown
      type leaves every log as it was. */
  method Route(table: seq<(int, LogFile)>, counts: seq<(int, nat)>,
               windows: map<int, seq<string>>, files: map<LogFile, string>,
               ghost received: map<int, seq<string>>, cap: nat, code: int, entry: string)
    returns (known: bool, counts': seq<(int, nat)>, windows': map<int, seq<string>>,
             files': map<LogFile, string>, ghost received': map<int, seq<string>>)
    requires TableDistinct(table)
    requires LogsConsistent(table, counts, windows, files, received, cap)
    ensures known <==> code in Codes(table)
    ensures LogsConsistent(table, counts', windows', files', received', cap)
    ensures !known ==> counts' == counts && windows' == windows && files' == files && received' == received
    ensures known ==> var i := IndexOf(table, code);
      && counts' == counts[i := (code, if |windows[code]| < cap then counts[i].1 + 1 else counts[i].1)]
      && windows' == windows[code := Window(windows[code] + [entry], cap)]
      && files' == files[table[i].1 := Concat(windows'[code])]
      && received' == received[code := received[code] + [entry]]
  {
    var found := FindType(table, code);
    if found.Some? {
      var index := found.value;
      assert index == IndexOf(table, code) by {
        var j := IndexOf(table, code);
        assert CodeColumn(table)[index] == CodeColumn(table)[j];
      }
      known := true;
      counts', windows', files', received' := AppendToLog(table, counts, windows, files, received, cap, index, entry);
    } else {
      known, counts', windows', files', received' := false, counts, windows, files, received;
    }
  }

  /** Logs that have received nothing are consistent: every counter is 0, every
      window and every file empty. */
  lemma EmptyLogsConsistent(table: seq<(int, LogFile)>, counts: seq<(int, nat)>,
                            windows: map<int, seq<string>>, files: map<LogFile, string>, cap: nat)
    requires |counts| == |table| && forall i :: 0 <= i < |table| ==> counts[i] == (table[i].0, 0)
    requires windows.Keys == Codes(table) && forall k :: k in windows ==> windows[k] == []
    requires files.Keys == Files(table) && forall f :: f in files ==> files[f] == ""
    ensures LogsConsistent(table, counts, windows, files, windows, cap)
  {
    forall i | 0 <= i < |table|
      ensures files[table[i].1] == Concat(windows[table[i].0])
    {
      var code := table[i].0;
      assert code in Codes(table) && table[i].1 in Files(table);
      assert windows[code] == [];
    }
  }
}
