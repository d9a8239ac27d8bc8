/** The custom report: one row holding the latest value of every watch-listed field,
    updated from each package's subpackages, and the snapshots taken of it. */
module CustomReport {
  import opened Common
  import opened Packages
  import opened WatchList
  import opened BoundedLog

  /** The current row (`custom_report`): every registry key with its latest value,
      `None` until a subpackage has supplied one. */
  type Row = map<string, Option<Value>>

  /** One line of the report: when it was taken and the row's values in registry order. */
  datatype Snapshot = Snapshot(timestamp: string, values: seq<Option<Value>>)

  /** What the report file shows: its header and its rows, oldest first. */
  datatype ReportTable = ReportTable(header: seq<string>, rows: seq<Snapshot>)

  /** The report's header: `Timestamp` and then the registry keys in order. */
  function ReportHeader(keys: seq<string>): (header: seq<string>)
    ensures |header| == |keys| + 1 && header[0] == "Timestamp" && header[1..] == keys
  {
    ["Timestamp"] + keys
  }

  /** A row with exactly the registry's keys, all unset. */
  function EmptyRow(keys: seq<string>): (row: Row)
    ensures forall k :: k in row <==> k in keys
    ensures forall k :: k in row ==> row[k] == None
  {
    map k | k in keys :: None
  }

  /** A subpackage whose renamed fields can form a namedtuple: no two of its
      fields are given the same canonical key. */
  predicate WellNamed(sub: Subpackage)
  {
    forall f, g :: f in sub.fields && g in sub.fields && CanonicalKey(sub.name, f) == CanonicalKey(sub.name, g) ==> f == g
  }

  predicate AllWellNamed(subs: seq<Subpackage>)
  {
    forall j :: 0 <= j < |subs| ==> WellNamed(subs[j])
  }

  /** The subpackage's values under their canonical keys
      (`updated_subpackage_variables`): every field appears under its key, and
      nothing else does. */
  function Renamed(sub: Subpackage): (m: map<string, Value>)
    requires WellNamed(sub)
    ensures forall f :: f in sub.fields ==> CanonicalKey(sub.name, f) in m && m[CanonicalKey(sub.name, f)] == sub.fields[f]
    ensures forall k :: k in m ==> exists f :: f in sub.fields && CanonicalKey(sub.name, f) == k
  {
    map f | f in sub.fields :: CanonicalKey(sub.name, f) := sub.fields[f]
  }

  /** One `_replace`: the row's keys shared with the subpackage take its values. */
  function UpdateRow(row: Row, sub: Subpackage): (row': Row)
    requires WellNamed(sub)
    ensures row'.Keys == row.Keys
    ensures forall f :: f in sub.fields && CanonicalKey(sub.name, f) in row ==>
      row'[CanonicalKey(sub.name, f)] == Some(sub.fields[f])
    ensures forall k :: k in row && k !in Renamed(sub) ==> row'[k] == row[k]
  {
    var renamed := Renamed(sub);
    map k | k in row :: if k in renamed then Some(renamed[k]) else row[k]
  }

  /** The row once every subpackage has been applied, in order. */
  function UpdateRowAll(row: Row, subs: seq<Subpackage>): Row
    requires AllWellNamed(subs)
    decreases |subs|
  {
    if subs == [] then row
    else UpdateRow(UpdateRowAll(row, subs[..|subs| - 1]), subs[|subs| - 1])
  }

  /** One update keeps the row's keys, and extends the updates before it. */
  lemma UpdateRowStep(row: Row, subs: seq<Subpackage>, sub: Subpackage)
    requires AllWellNamed(subs) && WellNamed(sub)
    ensures AllWellNamed(subs + [sub])
    ensures UpdateRow(row, sub).Keys == row.Keys
    ensures UpdateRowAll(row, subs + [sub]) == UpdateRow(UpdateRowAll(row, subs), sub)
  {
    assert (subs + [sub])[..|subs|] == subs;
  }

  /** Updating never adds or removes a key of the row. */
  lemma {:induction false} UpdateKeepsKeys(row: Row, subs: seq<Subpackage>)
    requires AllWellNamed(subs)
    ensures UpdateRowAll(row, subs).Keys == row.Keys
    decreases |subs|
  {
    if subs != [] {
      UpdateKeepsKeys(row, subs[..|subs| - 1]);
    }
  }

  /** A key that no subpackage supplies keeps its value. */
  lemma {:induction false} UpdateUntouched(row: Row, subs: seq<Subpackage>, k: string)
    requires AllWellNamed(subs)
    requires k in row
    requires forall j :: 0 <= j < |subs| ==> k !in Renamed(subs[j])
    ensures k in UpdateRowAll(row, subs) && UpdateRowAll(row, subs)[k] == row[k]
    decreases |subs|
  {
    if subs != [] {
      UpdateUntouched(row, subs[..|subs| - 1], k);
    }
  }

  /** A key of the row takes the value of the last subpackage that supplies it. */
  lemma {:induction false} UpdateLastWins(row: Row, subs: seq<Subpackage>, k: string, j: nat)
    requires AllWellNamed(subs)
    requires k in row
    requires j < |subs| && k in Renamed(subs[j])
    requires forall j' :: j < j' < |subs| ==> k !in Renamed(subs[j'])
    ensures k in UpdateRowAll(row, subs) && UpdateRowAll(row, subs)[k] == Some(Renamed(subs[j])[k])
    decreases |subs|
  {
    UpdateKeepsKeys(row, subs[..|subs| - 1]);
    if j < |subs| - 1 {
      UpdateLastWins(row, subs[..|subs| - 1], k, j);
    }
  }

  /** Subpackages that supply disjoint keys can arrive in either order. */
  lemma UpdateDisjointCommutes(row: Row, a: Subpackage, b: Subpackage)
    requires WellNamed(a) && WellNamed(b)
    requires Renamed(a).Keys !! Renamed(b).Keys
    ensures UpdateRowAll(row, [a, b]) == UpdateRowAll(row, [b, a])
  {
    UpdateRowStep(row, [], a);
    UpdateRowStep(row, [], b);
    assert [] + [a] == [a] && [] + [b] == [b];
    UpdateRowStep(row, [a], b);
    UpdateRowStep(row, [b], a);
    assert [a] + [b] == [a, b] && [b] + [a] == [b, a];
    UpdateRowSwap(row, a, b);
  }

  /** Two single updates with disjoint keys give the same row in either order. */
  lemma UpdateRowSwap(row: Row, a: Subpackage, b: Subpackage)
    requires WellNamed(a) && WellNamed(b)
    requires Renamed(a).Keys !! Renamed(b).Keys
    ensures UpdateRow(UpdateRow(row, a), b) == UpdateRow(UpdateRow(row, b), a)
  {
    var ra, rb := Renamed(a), Renamed(b);
    var ra', rb' := UpdateRow(row, a), UpdateRow(row, b);
    var ab, ba := UpdateRow(ra', b), UpdateRow(rb', a);
    assert ab.Keys == row.Keys == ba.Keys;
    forall k | k in row
      ensures ab[k] == ba[k]
    {
      if k in rb {
        assert k !in ra;
        assert ab[k] == Some(rb[k]) == rb'[k] == ba[k];
      } else {
        assert ab[k] == ra'[k] && ba[k] == (if k in ra then Some(ra[k]) else rb'[k]);
      }
    }
  }

  /** Applies the subpackages to the row one after another, in order. */
  method ApplySubpackages(row: Row, subs: seq<Subpackage>) returns (row': Row)
    requires AllWellNamed(subs)
    ensures row' == UpdateRowAll(row, subs)
    ensures row'.Keys == row.Keys
  {
    row' := row;
    var i := 0;
    while i < |subs|
      invariant 0 <= i <= |subs|
      invariant AllWellNamed(subs[..i])
      invariant row' == UpdateRowAll(row, subs[..i])
      invariant row'.Keys == row.Keys
    {
      UpdateRowStep(row, subs[..i], subs[i]);
      assert subs[..i + 1] == subs[..i] + [subs[i]];
      row' := UpdateRow(row', subs[i]);
      i := i + 1;
    }
    assert subs[..|subs|] == subs;
  }

  /** The row's values listed in registry order (`getattr(row, f) for f in _fields`). */
  function RowValues(keys: seq<string>, row: Row): (values: seq<Option<Value>>)
    requires forall i :: 0 <= i < |keys| ==> keys[i] in row
    ensures |values| == |keys|
    ensures forall i :: 0 <= i < |keys| ==> values[i] == row[keys[i]]
  {
    seq(|keys|, i requires 0 <= i < |keys| => row[keys[i]])
  }

  /** The report agrees with what it was given: the row has exactly the registry's
      keys, the history is the last `cap` snapshots taken, and the report file shows
      that history under the registry's header. */
  ghost predicate ReportConsistent(enabled: bool, fields: seq<string>, row: Option<Row>,
                                   history: Option<seq<Snapshot>>, file: Option<ReportTable>,
                                   snapshots: seq<Snapshot>, cap: nat)
  {
    && Distinct(fields)
    && (row.Some? <==> enabled)
    && (!enabled ==> fields == [])
    && (row.Some? ==> row.value.Keys == set k | k in fields)
    && (history.None? ==> snapshots == [] && file.None?)
    && (history.Some? ==> history.value == Window(snapshots, cap))
    && (file.Some? ==> history.Some? && file.value == ReportTable(ReportHeader(fields), history.value))
  }

  /** `append_custom_report` on the report's state: the row takes the subpackages,
      a snapshot of it stamped with `timestamp` joins the history (created empty on
      first use, evicting the oldest snapshot when full), and the report file is
      rewritten with the history under the registry's header. */
  method AppendSnapshot(enabled: bool, fields: seq<string>, row: Row, history: Option<seq<Snapshot>>,
                        file: Option<ReportTable>, ghost snapshots: seq<Snapshot>, cap: nat,
                        subs: seq<Subpackage>, timestamp: string)
    returns (row': Row, history': seq<Snapshot>, file': ReportTable, ghost snapshots': seq<Snapshot>)
    requires ReportConsistent(enabled, fields, Some(row), history, file, snapshots, cap)
    requires AllWellNamed(subs)
    ensures ReportConsistent(enabled, fields, Some(row'), Some(history'), Some(file'), snapshots', cap)
    ensures row' == UpdateRowAll(row, subs)
    ensures var snapshot := Snapshot(timestamp, RowValues(fields, row'));
      && snapshots' == snapshots + [snapshot]
      && history' == Window((if history.Some? then history.value else []) + [snapshot], cap)
    ensures file' == ReportTable(ReportHeader(fields), history')
  {
    row' := ApplySubpackages(row, subs);
    // The history starts empty the first time a snapshot is taken.
    var current := if history.Some? then history.value else [];
    var snapshot := Snapshot(timestamp, RowValues(fields, row'));
    DequeAppendIsWindow(current, snapshot, cap);
    DequeAppendWindow(snapshots, snapshot, cap);
    history' := DequeAppend(current, snapshot, cap);
    file' := ReportTable(ReportHeader(fields), history');
    snapshots' := snapshots + [snapshot];
  }
}
