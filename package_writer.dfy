/** The package writer: routes each decoded package to the bounded log of its type,
    rewrites that type's file, and keeps the custom report. */
module PackageWriter {
  import opened Common
  import opened BoundedLog
  import opened WatchList
  import opened Packages
  import opened CustomReport
  import opened TypeLogs

  /** The type table in declared order: every known type code with the file its log
      is written to (named by `FileName`); -1 stands for a disconnect. */
  const FileTable: seq<(int, LogFile)> := [
    (-1, Disconnect),
    (16, RobotState),
    (20, RobotMessage),
    (22, HmcMessage),
    (5, ModbusInfoMessage),
    (23, SafetySetupBroadcastMessage),
    (24, SafetyComplianceTolerancesMessage),
    (25, ProgramStateMessage)
  ]

  /** The type table has no repeated type code and no repeated file. */
  lemma FileTableDistinct()
    ensures TableDistinct(FileTable)
  {
  }

  /** The one diagnostic the writer gives: a package of a type it does not know. */
  datatype Diagnostic = UnknownMessageType(code: int)

  class Writer {
    /** `max_packages`: the capacity of every log window and of the report history. */
    const maxPackages: nat
    /** Whether the custom report is kept. */
    const customReportsEnabled: bool
    /** The registry: the report's keys in watch-list order; empty when the report is off. */
    const fields: seq<string>

    /** `file_paths`: every known type code with its log file, in table order. */
    const filePaths: seq<(int, LogFile)>

    /** `package_counts`: each type code, in table order, with its counter. */
    var counts: seq<(int, nat)>
    /** `package_deques`: each type's window of stored entries, oldest first. */
    var windows: map<int, seq<string>>
    /** What each log file holds. */
    var files: map<LogFile, string>
    /** The diagnostics printed so far, oldest first. */
    var diagnostics: seq<Diagnostic>
    /** `custom_report`: the current row, `None` when the report is off. */
    var customReport: Option<Row>
    /** `custom_reports_deque`: the retained snapshots; `None` until the first one. */
    var reportsDeque: Option<seq<Snapshot>>
    /** What the report file holds; `None` until it is first written. */
    var reportFile: Option<ReportTable>

    /** Every entry ever appended, per type. */
    ghost var received: map<int, seq<string>>
    /** Every snapshot ever taken. */
    ghost var snapshots: seq<Snapshot>

    /** The writer's invariant: the type logs are consistent and so is the report. */
    ghost predicate Valid()
      reads this
    {
      && TableDistinct(filePaths)
      && LogsConsistent(filePaths, counts, windows, files, received, maxPackages)
      && ReportConsistent(customReportsEnabled, fields, customReport, reportsDeque, reportFile, snapshots, maxPackages)
    }

    /** The state set up once the watch list, if any, has been read into `registry`:
        every log file empty, every counter 0, every window empty, in table order,
        and every registry key unset. */
    constructor (maxPackages: nat, registry: Option<seq<string>>)
      requires registry.Some? ==> Distinct(registry.value)
      ensures Valid()
      ensures this.maxPackages == maxPackages && customReportsEnabled == registry.Some?
      ensures fields == (if registry.Some? then registry.value else [])
      ensures customReport == (if registry.Some? then Some(EmptyRow(registry.value)) else None)
      ensures filePaths == FileTable
      ensures |counts| == |filePaths| && forall i :: 0 <= i < |filePaths| ==> counts[i] == (filePaths[i].0, 0)
      ensures windows.Keys == Codes(filePaths) && forall k :: k in windows ==> windows[k] == []
      ensures files.Keys == Files(filePaths) && forall f :: f in files ==> files[f] == ""
      ensures diagnostics == [] && reportsDeque == None && reportFile == None
      ensures received == windows && snapshots == []
    {
      this.maxPackages := maxPackages;
      customReportsEnabled := registry.Some?;
      fields := if registry.Some? then registry.value else [];
      customReport := if registry.Some? then Some(EmptyRow(registry.value)) else None;
      filePaths := FileTable;
      FileTableDistinct();
      var written := EmptyFiles(FileTable);
      var zeros := seq(|FileTable|, j requires 0 <= j < |FileTable| => (FileTable[j].0, 0));
      var empty: map<int, seq<string>> := map k | k in Codes(FileTable) :: [];
      EmptyLogsConsistent(FileTable, zeros, empty, written, maxPackages);
      files := written;
      counts := zeros;
      windows := empty;
      received := empty;
      diagnostics := [];
      reportsDeque := None;
      reportFile := None;
      snapshots := [];
    }

    /** `append_package_to_file`: for a known type, counts the package while the
        type's window is not yet full, appends its entry to the window (evicting the
        oldest when full) and rewrites the type's file with the window; every other
        type is untouched. An unknown type changes nothing but the diagnostics. */
    method AppendPackageToFile(p: Package)
      requires Valid()
      modifies this`counts, this`windows, this`files, this`diagnostics, this`received
      ensures Valid()
      ensures p.typeCode !in Codes(filePaths) ==>
        && counts == old(counts) && windows == old(windows) && files == old(files)
        && received == old(received)
        && diagnostics == old(diagnostics) + [UnknownMessageType(p.typeCode)]
      ensures p.typeCode in Codes(filePaths) ==>
        var i := IndexOf(filePaths, p.typeCode);
        && counts == old(counts)[i := (p.typeCode,
             if |old(windows)[p.typeCode]| < maxPackages then old(counts)[i].1 + 1 else old(counts)[i].1)]
        && windows == old(windows)[p.typeCode := Window(old(windows)[p.typeCode] + [Entry(p.text)], maxPackages)]
        && files == old(files)[filePaths[i].1 := Concat(windows[p.typeCode])]
        && received == old(received)[p.typeCode := old(received)[p.typeCode] + [Entry(p.text)]]
        && diagnostics == old(diagnostics)
    {
      var known, counts', windows', files', received' :=
        Route(filePaths, counts, windows, files, received, maxPackages, p.typeCode, Entry(p.text));
      var diagnostics' := if known then diagnostics else diagnostics + [UnknownMessageType(p.typeCode)];
      assert LogsConsistent(filePaths, counts', windows', files', received', maxPackages);
      counts, windows, files, received, diagnostics := counts', windows', files', received', diagnostics';
    }

    /** `update_custom_report`: applies the package's subpackages to the row in order,
        so that each key shared with a subpackage ends with the last such value. */
    method UpdateCustomReport(p: Package)
      requires Valid() && customReport.Some?
      requires AllWellNamed(p.subpackages)
      modifies this`customReport
      ensures Valid()
      ensures customReport == Some(UpdateRowAll(old(customReport.value), p.subpackages))
    {
      var row := ApplySubpackages(customReport.value, p.subpackages);
      assert ReportConsistent(customReportsEnabled, fields, Some(row), reportsDeque, reportFile, snapshots, maxPackages);
      customReport := Some(row);
    }

    /** `append_custom_report`: updates the row, then appends a snapshot of it,
        stamped with `timestamp`, to the report history (created empty on first use,
        evicting the oldest snapshot when full), and rewrites the report file. */
    method AppendCustomReport(p: Package, timestamp: string)
      requires Valid() && customReport.Some?
      requires AllWellNamed(p.subpackages)
      modifies this`customReport, this`reportsDeque, this`reportFile, this`snapshots
      ensures Valid()
      ensures customReport == Some(UpdateRowAll(old(customReport.value), p.subpackages))
      ensures var snapshot := Snapshot(timestamp, RowValues(fields, customReport.value));
        && snapshots == old(snapshots) + [snapshot]
        && reportsDeque == Some(Window(
             (if old(reportsDeque).Some? then old(reportsDeque).value else []) + [snapshot], maxPackages))
      ensures reportFile == Some(ReportTable(ReportHeader(fields), reportsDeque.value))
    {
      var row, history, table, snapshots' :=
        AppendSnapshot(customReportsEnabled, fields, customReport.value, reportsDeque, reportFile, snapshots,
                       maxPackages, p.subpackages, timestamp);
      assert ReportConsistent(customReportsEnabled, fields, Some(row), Some(history), Some(table), snapshots', maxPackages);
      customReport, reportsDeque, reportFile, snapshots := Some(row), Some(history), Some(table), snapshots';
    }
  }

  /** Why a writer could not be set up. */
  datatype SetupError = MalformedWatchList(line: nat) | NegativeCapacity

  /** No two well-formed lines of the watch list register the same key (the report
      row's namedtuple refuses duplicate field names). */
  predicate UniqueWatchKeys(lines: seq<string>)
  {
    forall i, j :: 0 <= i < j < |lines| && ParseWatchLine(lines[i]).Some? ==> ParseWatchLine(lines[i]) != ParseWatchLine(lines[j])
  }

  /** `PackageWriter.__init__`: reads the watch list when the report is on (failing
      at its first malformed line), then fails for a negative capacity (a deque's
      `maxlen` cannot be negative), and otherwise sets up the initial state. */
  method Create(maxPackages: int, customReport: bool, watchLines: seq<string>) returns (r: Result<Writer, SetupError>)
    requires customReport && (forall i :: 0 <= i < |watchLines| ==> ParseWatchLine(watchLines[i]).Some?) ==> UniqueWatchKeys(watchLines)
    ensures r.Success? <==> maxPackages >= 0 && (customReport ==> forall i :: 0 <= i < |watchLines| ==> ParseWatchLine(watchLines[i]).Some?)
    ensures r.Failure? && r.error.MalformedWatchList? ==>
      && customReport && r.error.line < |watchLines| && ParseWatchLine(watchLines[r.error.line]).None?
      && forall i :: 0 <= i < r.error.line ==> ParseWatchLine(watchLines[i]).Some?
    ensures r.Failure? && r.error.NegativeCapacity? ==> maxPackages < 0
    ensures r.Success? ==> fresh(r.value) && r.value.Valid() && r.value.maxPackages == maxPackages
    ensures r.Success? ==> r.value.customReportsEnabled == customReport
    ensures r.Success? ==> var w := r.value;
      && w.filePaths == FileTable
      && |w.counts| == |FileTable| && (forall i :: 0 <= i < |FileTable| ==> w.counts[i] == (FileTable[i].0, 0))
      && w.windows.Keys == Codes(FileTable) && (forall k :: k in w.windows ==> w.windows[k] == [])
      && w.files.Keys == Files(FileTable) && (forall f :: f in w.files ==> w.files[f] == "")
      && w.received == w.windows && w.snapshots == []
      && w.diagnostics == [] && w.reportsDeque == None && w.reportFile == None
      && w.customReport == (if customReport then Some(EmptyRow(w.fields)) else None)
    ensures r.Success? && customReport ==>
      && |r.value.fields| == |watchLines|
      && forall i :: 0 <= i < |watchLines| ==> ParseWatchLine(watchLines[i]) == Some(r.value.fields[i])
  {
    var registry: Option<seq<string>> := None;
    if customReport {
      var loaded := LoadWatchList(watchLines);
      if loaded.Failure? {
        return Failure(MalformedWatchList(loaded.error.index));
      }
      registry := Some(loaded.value);
    }
    if maxPackages < 0 {
      return Failure(NegativeCapacity);
    }
    var w := new Writer(maxPackages, registry);
    return Success(w);
  }
}
