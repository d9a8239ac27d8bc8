# Package writer of a Universal Robots primary-interface client

The client reads packages from a robot controller's primary interface. It decodes each
package into a type code, a list of named subpackages and a printable text. Then it hands
each package to a `PackageWriter`. This project models that writer in Dafny and proves
what it does.

**Per-type logs.** The writer has a fixed table of eight known type codes
(-1 for a disconnect, then 16, 20, 22, 5, 23, 24 and 25). Each code has its own log file.
For each type it keeps:
- a window of the most recent `max_packages` entries, as a bounded deque does;
- a counter that stops growing once the window is full.

An entry is the package's text followed by a line of 80 `#`. When a package arrives, its
entry is appended to its type's window and the type's file is rewritten with the window.
A package of an unknown type only produces a diagnostic.

**Custom report.** When the report is on, the writer reads a watch list first. Each line is
`subpackage,field`. The line is stripped and split on its comma, and its key is built as
`subpackage_field`, with spaces turned into underscores. The report row holds the latest
value of every registered key. Each package updates the row one subpackage at a time:
- every field of the subpackage gets a canonical key;
- only keys the row already has take the new value;
- a later subpackage overwrites an earlier one.

Each update then appends a snapshot to a bounded history. A snapshot is a timestamp plus
the row's values in registry order. The report file is rewritten as a table whose header is
`Timestamp` followed by the keys.

The modules follow the structure of `client/package_writer.py`:
- `Common` holds `Option`, `Result`, `Min` and `Distinct`.
- `BoundedLog` models the bounded deque as the last `cap` elements of everything appended
  (`Window`), plus the concatenation written to a log file.
- `WatchList` models Python's `str.strip`, `str.split` on one separator, and the key
  construction, and the loop that reads the watch list.
- `Packages` holds the decoded package as data.
- `CustomReport` models the row, its update by subpackages, snapshots and the report table.
- `TypeLogs` models the type table, the search for a type, and the per-type logs with the
  invariant that ties them together.
- `PackageWriter` defines the class `Writer`. Its fields are the writer's state, and its
  methods update them in place. `Create` models `__init__`, including its failures.

The ghost fields `received` and `snapshots` record everything ever appended.
The invariant `Writer.Valid` states four things:
- each window is `Window(received, max_packages)`;
- each counter is `Min(|received|, max_packages)`;
- each file holds exactly its window's entries;
- the report row, history and file agree with the registry.

Two failure cases of the code shape the contracts:
- **Duplicate watch-list keys.** `namedtuple` raises on a repeated field name
  (client/package_writer.py:51), so `Create` requires distinct keys once every line of the
  watch list has been read. A malformed line is reported first, since reading stops there.
- **Negative `max_packages`.** `deque(maxlen=...)` raises for a negative value, so `Create`
  fails with `NegativeCapacity`. A malformed watch list is reported first, as in the code.

## Model

| member | source | states |
|---|---|---|
| BoundedLog.DequeAppend | client/package_writer.py:105 | one `append` to a deque with `maxlen`: the result has `min(n + 1, maxlen)` items and is the tail of the old contents plus the new item |
| BoundedLog.Concat | client/package_writer.py:106-108 | the text of the entries written in order: it starts with the oldest entry and ends with the newest |
| BoundedLog.Window | client/package_writer.py:81-83 | a bounded deque's contents are the last `min(n, maxlen)` elements appended |
| BoundedLog.DequeAppendIsWindow | client/package_writer.py:105 | appending to a deque that holds at most `maxlen` items gives the last `maxlen` items of the extended sequence |
| BoundedLog.DequeAppendWindow | client/package_writer.py:105 | appending to the window of a history gives the window of the extended history |
| BoundedLog.WindowAppend | client/package_writer.py:129 | windowing twice around an append is the same as windowing once |
| BoundedLog.CappedCountStep | client/package_writer.py:96-100 | a counter bumped only while the deque is not full equals `min(received, max_packages)` after each step |
| BoundedLog.DequeAppendEvictsOldest | client/package_writer.py:105 | a full deque drops its oldest item on append; a non-full deque just grows by one |
| BoundedLog.ConcatSnoc | client/package_writer.py:106-108 | writing one more entry extends the file text by exactly that entry |
| WatchList.IsSpace | client/package_writer.py:153 | the characters `str.strip()` removes; the comma is never one of them |
| WatchList.TrimLeft | client/package_writer.py:153 | the result is a suffix of the line, everything cut is whitespace, and it does not start with whitespace |
| WatchList.TrimRight | client/package_writer.py:153 | the result is a prefix of the line, everything cut is whitespace, and it does not end with whitespace |
| WatchList.Strip | client/package_writer.py:153 | the stripped line neither starts nor ends with whitespace, and is no longer than the line |
| WatchList.StripKeeps | client/package_writer.py:153 | stripping keeps every non-whitespace character, with its count |
| WatchList.StripExact | client/package_writer.py:153 | stripping removes exactly the leading and trailing whitespace |
| WatchList.Split | client/package_writer.py:153 | `str.split(sep)` gives at least one piece, and exactly the string itself when it holds no separator |
| WatchList.SplitCount | client/package_writer.py:153 | splitting on a separator gives one more piece than there are separators |
| WatchList.SplitNoSep | client/package_writer.py:153 | no piece of a split contains the separator |
| WatchList.SplitThenJoin | client/package_writer.py:153 | joining the pieces of a split with the separator gives back the string |
| WatchList.SplitJoin | client/package_writer.py:153 | splitting a join of separator-free pieces gives back the pieces |
| WatchList.ReplaceSpaces | client/package_writer.py:155 | every space becomes an underscore, and every other character is kept in place |
| WatchList.CanonicalKey | client/package_writer.py:154-156 | the key is `sub_field`, has the combined length, holds no space, and holds no comma when neither name does |
| WatchList.CanonicalKeyCollides | client/package_writer.py:155 | different subpackage/field pairs can give the same key (`A B`/`x`, `A_B`/`x` and `A`/`B_x`) |
| WatchList.ParseWatchLine | client/package_writer.py:153-156 | a line registers a key only when its stripped text splits into two pieces; a registered key holds no space and no comma |
| WatchList.WatchLineAccepted | client/package_writer.py:153 | a watch-list line is accepted if and only if it holds exactly one comma |
| WatchList.WatchLineRoundTrip | client/package_writer.py:153-156 | a line made of padding, a subpackage, a comma and a field parses to that pair's key |
| WatchList.LoadWatchList | client/package_writer.py:149-157 | on success, the registry has one key per line, in order, each the key that line parses to; on failure, it reports the first line that does not split into two pieces |
| CustomReport.ReportHeader | client/package_writer.py:132 | the header is `Timestamp` followed by the registry keys in order |
| CustomReport.EmptyRow | client/package_writer.py:51-52 | the initial row has exactly the registry's keys, all holding `None` |
| CustomReport.Renamed | client/package_writer.py:166-187 | every subpackage field appears under its canonical key with its value, and no other key appears |
| CustomReport.UpdateRow | client/package_writer.py:189-198 | one `_replace`: the row keeps its keys, each shared key takes the subpackage field's value, and every other key keeps its value |
| CustomReport.UpdateRowAll | client/package_writer.py:163-198 | the row after the subpackages are applied one by one, in order; its properties are stated by `UpdateRowStep`, `UpdateKeepsKeys`, `UpdateUntouched` and `UpdateLastWins` |
| CustomReport.UpdateRowStep | client/package_writer.py:163-198 | one subpackage update keeps the row's keys and extends the fold over the earlier subpackages |
| CustomReport.UpdateKeepsKeys | client/package_writer.py:190-198 | updating never adds or removes a key of the row |
| CustomReport.UpdateUntouched | client/package_writer.py:190-198 | a key that no subpackage supplies keeps its old value |
| CustomReport.UpdateLastWins | client/package_writer.py:163-198 | a key takes the value of the last subpackage that supplies it |
| CustomReport.UpdateDisjointCommutes | client/package_writer.py:163-198 | subpackages with disjoint keys give the same row in either order |
| CustomReport.UpdateRowSwap | client/package_writer.py:190-198 | two single updates with disjoint keys commute |
| CustomReport.ApplySubpackages | client/package_writer.py:163-198 | the loop over subpackages computes the ordered fold of updates and keeps the row's keys |
| CustomReport.RowValues | client/package_writer.py:124-126 | the snapshot holds one value per registry key, in registry order, each the row's value |
| CustomReport.AppendSnapshot | client/package_writer.py:115-140 | the report stays consistent: the row is updated, the snapshot is the timestamp plus the row's values, the history is the window of all snapshots, and the file shows the header and the history |
| TypeLogs.FileName | client/package_writer.py:61-73 | each log file's name is a `.txt` name |
| TypeLogs.FileNamesDistinct | client/package_writer.py:61-73 | no two log files share a name |
| TypeLogs.Entry | client/package_writer.py:105 | an entry is the package text, a newline, 80 `#` and a newline |
| TypeLogs.Separator | client/package_writer.py:105 | the separator is a line of 80 `#` |
| TypeLogs.FindType | client/package_writer.py:91-101 | a type is found if and only if its code is in the table, and then at its first position |
| TypeLogs.EmptyFiles | client/package_writer.py:75-77 | every log file starts empty |
| TypeLogs.WriteLog | client/package_writer.py:106-108 | the file is rewritten with the window's entries, oldest first |
| TypeLogs.AppendKeepsWindows | client/package_writer.py:105 | appending one entry keeps every window equal to the window of its type's history |
| TypeLogs.AppendKeepsCounts | client/package_writer.py:96-100 | the counter rule keeps every counter equal to `min(received, max_packages)`, and other types' counters are unchanged |
| TypeLogs.AppendKeepsFiles | client/package_writer.py:104-108 | rewriting one type's file keeps every file equal to its window's entries |
| TypeLogs.AppendKeepsLogsConsistent | client/package_writer.py:96-108 | one append to a known type preserves the whole per-type log invariant |
| TypeLogs.AppendToLog | client/package_writer.py:96-108 | a known type's counter, window, history and file take their new values, and the invariant holds |
| TypeLogs.Route | client/package_writer.py:86-110 | a known code updates exactly its own log; an unknown code changes nothing; the invariant holds either way |
| TypeLogs.EmptyLogsConsistent | client/package_writer.py:80-83 | zero counters, empty windows and empty files satisfy the invariant |
| PackageWriter.FileTable | client/package_writer.py:60-74 | the eight known type codes with their log files, in declared order |
| PackageWriter.FileTableDistinct | client/package_writer.py:60-74 | the type table repeats no type code and no file |
| PackageWriter.Writer.Valid | client/package_writer.py:80-83 | the writer's invariant: each window is the last `max_packages` entries received for its type, each counter is `min(received, max_packages)`, each file holds its window, and the report agrees with the registry |
| PackageWriter.Writer.constructor | client/package_writer.py:42-83 | the initial state holds the table, zero counters, empty windows and files, no diagnostics, no report history, an empty ghost history, and an empty row over the registry; the invariant holds |
| PackageWriter.Writer.AppendPackageToFile | client/package_writer.py:86-113 | an unknown type adds one diagnostic and changes nothing else; a known type's counter grows only while its window is not full, its window is the last `max_packages` entries, and its file is rewritten from the window |
| PackageWriter.Writer.UpdateCustomReport | client/package_writer.py:159-198 | the row becomes the ordered fold of the package's subpackage updates; the invariant holds |
| PackageWriter.Writer.AppendCustomReport | client/package_writer.py:115-140 | the row is updated; one snapshot of the timestamp and the row's values is appended to the history, which keeps the last `max_packages`; the file shows the header and the history |
| PackageWriter.Create | client/package_writer.py:42-83 | setup succeeds if and only if the capacity is non-negative and, when the report is on, every watch-list line is well-formed; a failure names its cause; on success the registry is the lines' keys in order, and the writer holds the table, zero counters, empty windows and files, no diagnostics, no report history, and an unset row when the report is on |

## Left out

- File system work is not modelled: directory creation, opening files, and the paths of
  the output directory. Each log file is a value named by `LogFile`, and the report file
  is the `ReportTable` it would show.
- `tabulate`'s grid layout is not modelled. The report file is modelled as its header
  and rows.
- `datetime.now()` is not modelled. The timestamp is a parameter of
  `Writer.AppendCustomReport`.
- `print_package_counts` (console output) is not modelled. The diagnostic for an unknown
  type is the value `UnknownMessageType(code)`, not its printed text.
- Decoding packages and rendering them as text (`str(package)`) are not part of this
  model. A package carries its text as data.
- `client/client.py`, the socket loop that calls the writer, is not part of this model.
- The namedtuple identifier rules are not modelled: keywords, leading digits or
  underscores, and other non-identifier characters in keys.
- PackageWriter.Create: requires distinct keys when every watch-list line is well-formed,
  where the code raises on a duplicate. It also does not fail on keys that are not valid
  identifiers.
- CustomReport.UpdateRow: requires each subpackage's canonical keys to be distinct
  (`WellNamed`), where the code's `namedtuple` raises on a repeat.
- PackageWriter.Writer.UpdateCustomReport: requires the report to be on. The code raises
  when the row is `None`.
- PackageWriter.Writer.AppendCustomReport: reaches the row update through
  `CustomReport.AppendSnapshot` rather than by calling `Writer.UpdateCustomReport`. The
  resulting row is the same.
- The row is rebound once per subpackage in the code. The model states the row after the
  whole loop. `CustomReport.ApplySubpackages` proves the loop equal to the ordered fold.
