/**
 The whole table after a package run on a table with room, row by row, and everything the run
 reported about the parent on the way.
 */
module PackageOutcome {
  import opened TaskStore
  import opened PackageInstall

  lemma ProductOrder(x: nat, y: nat, t: nat)
    requires x <= y
    ensures x * t <= y * t
  {
  }

  lemma QuotientIs(a: nat, t: nat, q: nat)
    requires t > 0 && q * t <= a < (q + 1) * t
    ensures a / t == q
  {
    var d := a / t;
    QuotientBounds(a, t);
    if d < q {
      ProductOrder(d + 1, q, t);
    } else if q < d {
      ProductOrder(q + 1, d, t);
    }
  }

  lemma QuotientBounds(a: nat, t: nat)
    requires t > 0
    ensures (a / t) * t <= a < (a / t + 1) * t
  {
  }

  /** A step's percentage is rounded down, lies in 0 to 100, and is 100 only at the last step. */
  lemma PercentMeaning(step: nat, total: nat)
    requires step <= total && total > 0
    ensures Percent(step, total) * total <= 100 * step < (Percent(step, total) + 1) * total
    ensures Percent(step, total) <= 100 && (Percent(step, total) == 100 <==> step == total)
  {
    var q := step * 100 / total;
    QuotientBounds(step * 100, total);
    if q > 100 {
      ProductOrder(101, q, total);
    }
    if step == total {
      QuotientIs(total * 100, total, 100);
    }
  }

  function ChildRow(status: Status, now: int): Row {
    Row(Some("install_configuration_from_marketplace"), status, 0, now, None, None, None)
  }

  function ImportRow(status: Status, now: int): Row {
    Row(Some("configuration_import"), status, 0, now, None, None, None)
  }

  /** The progress of every write of the parent's row, in order. */
  function Reports(log: seq<Write>, parent: nat): seq<Option<Progress>> {
    if log == [] then []
    else
      var last := log[|log| - 1];
      Reports(log[..|log| - 1], parent) + if last.id == parent then [last.row.progress] else []
  }

  lemma ReportsNext(log: seq<Write>, w: Write, parent: nat)
    ensures Reports(log + [w], parent) == Reports(log, parent) + if w.id == parent then [w.row.progress] else []
  {
    assert (log + [w])[..|log|] == log;
  }

  // ----- Single saves with room

  lemma SavedPlainly(db: Db, id: nat, r: Row, now: int, k: nat, parent: nat)
    requires Room(db, k) && id in db.rows && r.kind == db.rows[id].kind
    ensures var db' := Saved(db, id, r, now);
            && Room(db', k) && db'.rows == db.rows[id := r] && db'.nextId == db.nextId
            && Reports(db'.log, parent) == Reports(db.log, parent) + if id == parent then [r.progress] else []
  {
    KindKept(db.rows, id, r);
    ReportsNext(db.log, Write(id, r), parent);
  }

  lemma InsertedPlainly(db: Db, r: Row, now: int, k: nat, parent: nat)
    requires Room(db, k + 1) && parent in db.rows
    ensures var db' := Inserted(db, r, now);
            && Room(db', k) && db'.rows == db.rows[db.nextId := r.(createdAt := now)] && db'.nextId == db.nextId + 1
            && Reports(db'.log, parent) == Reports(db.log, parent)
  {
    InsertWithinLimit(db.rows, db.nextId, r.(createdAt := now));
    InsertCounts(db.rows, db.nextId, r.(createdAt := now));
    ReportsNext(db.log, Write(db.nextId, r.(createdAt := now)), parent);
  }

  lemma ImportedPlainly(db: Db, fails: bool, now: int, k: nat, parent: nat)
    requires Room(db, k + 1) && parent in db.rows && db.nextId !in db.rows
    ensures var db' := Imported(db, fails, now);
            && Room(db', k) && db'.nextId == db.nextId + 1
            && db'.rows == db.rows[db.nextId := ImportRow(if fails then Pending else Done, now)]
            && Reports(db'.log, parent) == Reports(db.log, parent)
  {
    hide Saved, Inserted, Room, Reports;
    var n, r := db.nextId, NewTask(IMPORT_TYPE).(createdAt := now);
    assert n != parent;
    var db1 := Inserted(db, NewTask(IMPORT_TYPE), now);
    var db2 := Saved(db1, n, r, now);
    var db3 := Saved(db2, n, r.(status := Pending), now);
    InsertedPlainly(db, NewTask(IMPORT_TYPE), now, k, parent);
    SavedPlainly(db1, n, r, now, k, parent);
    SavedPlainly(db2, n, r.(status := Pending), now, k, parent);
    SavedPlainly(db3, n, r.(status := Done), now, k, parent);
    assert db3.rows == db.rows[n := r.(status := Pending)];
  }

  lemma ParentStepPlainly(db: Db, parent: nat, step: nat, total: nat, now: int, k: nat)
    requires Room(db, k) && parent in db.rows
    ensures var (db', ok) := ParentStep(db, parent, step, total, now);
            var p := Some(StepProgress(step, total));
            && ok && Room(db', k) && db'.nextId == db.nextId
            && db'.rows == db.rows[parent := db.rows[parent].(progress := p)]
            && Reports(db'.log, parent) == Reports(db.log, parent) + [p]
  {
    hide Saved, Room, Reports;
    SavedPlainly(db, parent, db.rows[parent].(progress := Some(StepProgress(step, total))), now, k, parent);
  }

  // ----- One child

  /** How a child ends. */
  function ChildStatus(outcome: ChildOutcome): Status {
    match outcome
    case ReleaseNotFound => Error
    case DownloadFails => Error
    case ImportFails => Pending
    case Installs => Done
  }

  /** How often a child reports its step: before the download, and after the import. */
  function ChildReports(outcome: ChildOutcome): nat {
    match outcome
    case ReleaseNotFound => 0
    case DownloadFails => 1
    case ImportFails => 1
    case Installs => 2
  }

  function Imports(outcome: ChildOutcome): nat {
    if outcome == ImportFails || outcome == Installs then 1 else 0
  }

  function Times(p: Option<Progress>, n: nat): seq<Option<Progress>> {
    seq(n, i => p)
  }

  /** The table after one child, from its rows before. */
  function RowsAfterChild(db: Db, id: nat, parent: nat, p: Progress, outcome: ChildOutcome, now: int): Rows
    requires id in db.rows && parent in db.rows
  {
    var rows := db.rows[id := ChildRow(ChildStatus(outcome), now)];
    var reported := if ChildReports(outcome) == 0 then rows else rows[parent := db.rows[parent].(progress := Some(p))];
    if Imports(outcome) == 0 then reported
    else reported[db.nextId := ImportRow(if outcome == ImportFails then Pending else Done, now)]
  }

  /** What ChildPlainly says of one outcome. */
  ghost predicate ChildEnds(db: Db, id: nat, parent: nat, step: nat, total: nat, outcome: ChildOutcome, now: int, k: nat)
    requires id in db.rows && parent in db.rows
  {
    var (db', ok) := ChildInstalled(db, id, parent, step, total, outcome, now);
    var p := StepProgress(step, total);
    && (ok <==> outcome == Installs) && Room(db', k) && db'.nextId == db.nextId + Imports(outcome)
    && db'.rows == RowsAfterChild(db, id, parent, p, outcome, now)
    && Reports(db'.log, parent) == Reports(db.log, parent) + Times(Some(p), ChildReports(outcome))
  }

  lemma ChildWithoutRelease(db: Db, id: nat, parent: nat, step: nat, total: nat, now: int, k: nat)
    requires Room(db, k) && id in db.rows && parent in db.rows && id != parent && db.rows[id] == ChildRow(Init, now)
    ensures ChildEnds(db, id, parent, step, total, ReleaseNotFound, now, k)
  {
    hide Saved, ParentStep, Imported, Room, Reports, StepProgress;
    var running := db.rows[id].(status := Pending);
    SavedPlainly(db, id, running, now, k, parent);
    SavedPlainly(Saved(db, id, running, now), id, running.(status := Error), now, k, parent);
  }

  /** Up to the download: the child is pending and has reported once. */
  lemma ChildBegins(db: Db, id: nat, parent: nat, step: nat, total: nat, now: int, k: nat)
    requires Room(db, k) && id in db.rows && parent in db.rows && id != parent && db.rows[id] == ChildRow(Init, now)
    ensures var p := Some(StepProgress(step, total));
            var db1 := Saved(db, id, ChildRow(Pending, now), now);
            var (db2, ok) := ParentStep(db1, parent, step, total, now);
            && parent in db1.rows && ok && Room(db2, k) && db2.nextId == db.nextId
            && db2.rows == db.rows[id := ChildRow(Pending, now)][parent := db.rows[parent].(progress := p)]
            && Reports(db2.log, parent) == Reports(db.log, parent) + [p]
  {
    hide Saved, ParentStep, Room, Reports, StepProgress;
    SavedPlainly(db, id, ChildRow(Pending, now), now, k, parent);
    ParentStepPlainly(Saved(db, id, ChildRow(Pending, now), now), parent, step, total, now, k);
  }

  lemma ChildWithoutDownload(db: Db, id: nat, parent: nat, step: nat, total: nat, now: int, k: nat)
    requires Room(db, k) && id in db.rows && parent in db.rows && id != parent && db.rows[id] == ChildRow(Init, now)
    ensures ChildEnds(db, id, parent, step, total, DownloadFails, now, k)
  {
    hide Saved, ParentStep, Imported, Room, Reports, StepProgress;
    var db2 := ParentStep(Saved(db, id, ChildRow(Pending, now), now), parent, step, total, now).0;
    ChildBegins(db, id, parent, step, total, now, k);
    SavedPlainly(db2, id, ChildRow(Error, now), now, k, parent);
    assert db2.rows[id := ChildRow(Error, now)] == RowsAfterChild(db, id, parent, StepProgress(step, total), DownloadFails, now);
  }

  lemma ChildImports(db: Db, id: nat, parent: nat, step: nat, total: nat, fails: bool, now: int, k: nat)
    requires Room(db, k + 1) && id in db.rows && parent in db.rows && id != parent && db.rows[id] == ChildRow(Init, now)
    requires db.nextId !in db.rows
    ensures ChildEnds(db, id, parent, step, total, if fails then ImportFails else Installs, now, k)
  {
    hide Saved, ParentStep, Imported, Room, Reports, StepProgress;
    var p := StepProgress(step, total);
    var db2 := ParentStep(Saved(db, id, ChildRow(Pending, now), now), parent, step, total, now).0;
    ChildBegins(db, id, parent, step, total, now, k + 1);
    ImportedPlainly(db2, fails, now, k, parent);
    var db3 := Imported(db2, fails, now);
    if fails {
      assert db3.rows == RowsAfterChild(db, id, parent, p, ImportFails, now);
    } else {
      ParentStepPlainly(db3, parent, step, total, now, k);
      var db4 := ParentStep(db3, parent, step, total, now).0;
      SavedPlainly(db4, id, ChildRow(Done, now), now, k, parent);
      assert db4.rows[id := ChildRow(Done, now)] == RowsAfterChild(db, id, parent, p, Installs, now);
    }
  }

  lemma ChildPlainly(db: Db, id: nat, parent: nat, step: nat, total: nat, outcome: ChildOutcome, now: int, k: nat)
    requires Room(db, k + 1) && id in db.rows && parent in db.rows && id != parent && db.nextId !in db.rows
    requires db.rows[id] == ChildRow(Init, now)
    ensures ChildEnds(db, id, parent, step, total, outcome, now, k)
  {
    hide ChildEnds;
    MoreRoom(db, k);
    match outcome {
      case ReleaseNotFound => ChildWithoutRelease(db, id, parent, step, total, now, k);
      case DownloadFails => ChildWithoutDownload(db, id, parent, step, total, now, k);
      case ImportFails => ChildImports(db, id, parent, step, total, true, now, k);
      case Installs => ChildImports(db, id, parent, step, total, false, now, k);
    }
  }

  // ----- Everything a child writes

  /** The writes of a log: which row, and the status it got. */
  function Trace(log: seq<Write>): seq<(nat, Status)> {
    seq(|log|, i requires 0 <= i < |log| => (log[i].id, log[i].row.status))
  }

  lemma SavedTrace(db: Db, id: nat, r: Row, now: int)
    ensures Trace(Saved(db, id, r, now).log) == Trace(db.log) + [(id, r.status)]
  {
    hide Pruned;
  }

  lemma InsertedTrace(db: Db, r: Row, now: int)
    ensures Trace(Inserted(db, r, now).log) == Trace(db.log) + [(db.nextId, r.status)]
  {
    hide Pruned;
  }

  /** The import is written as initial twice, as pending, and as done where it succeeds. */
  lemma ImportedTrace(db: Db, fails: bool, now: int)
    ensures Trace(Imported(db, fails, now).log) ==
            Trace(db.log) + [(db.nextId, Init), (db.nextId, Init), (db.nextId, Pending)]
            + if fails then [] else [(db.nextId, Done)]
  {
    hide Saved, Inserted, Trace;
    var n, r := db.nextId, NewTask(IMPORT_TYPE).(createdAt := now);
    var db1 := Inserted(db, NewTask(IMPORT_TYPE), now);
    var db2 := Saved(db1, n, r, now);
    var db3 := Saved(db2, n, r.(status := Pending), now);
    InsertedTrace(db, NewTask(IMPORT_TYPE), now);
    SavedTrace(db1, n, r, now);
    SavedTrace(db2, n, r.(status := Pending), now);
    SavedTrace(db3, n, r.(status := Done), now);
  }

  lemma ParentStepTrace(db: Db, parent: nat, step: nat, total: nat, now: int)
    requires parent in db.rows
    ensures Trace(ParentStep(db, parent, step, total, now).0.log) == Trace(db.log) + [(parent, db.rows[parent].status)]
  {
    hide Saved, Trace;
    SavedTrace(db, parent, db.rows[parent].(progress := Some(StepProgress(step, total))), now);
  }

  /** What a child writes after it was marked pending. */
  function ChildTrace(outcome: ChildOutcome, id: nat, parent: nat, status: Status, next: nat): seq<(nat, Status)> {
    match outcome
    case ReleaseNotFound => [(id, Error)]
    case DownloadFails => [(parent, status), (id, Error)]
    case ImportFails => [(parent, status), (next, Init), (next, Init), (next, Pending)]
    case Installs => [(parent, status), (next, Init), (next, Init), (next, Pending), (next, Done), (parent, status), (id, Done)]
  }

  /** Every write of one child, in order. */
  lemma ChildWrites(db: Db, id: nat, parent: nat, step: nat, total: nat, outcome: ChildOutcome, now: int, k: nat)
    requires Room(db, k + 1) && id in db.rows && parent in db.rows && id != parent && db.nextId !in db.rows
    requires db.rows[id] == ChildRow(Init, now)
    ensures Trace(ChildInstalled(db, id, parent, step, total, outcome, now).0.log)
            == Trace(db.log) + [(id, Pending)] + ChildTrace(outcome, id, parent, db.rows[parent].status, db.nextId)
  {
    hide Saved, ParentStep, Imported, Room, Reports, StepProgress, Trace;
    var running := db.rows[id].(status := Pending);
    var status := db.rows[parent].status;
    var db1 := Saved(db, id, running, now);
    var db2 := ParentStep(db1, parent, step, total, now).0;
    SavedTrace(db, id, running, now);
    SavedPlainly(db, id, running, now, k + 1, parent);
    if outcome == ReleaseNotFound {
      SavedTrace(db1, id, running.(status := Error), now);
    } else {
      ChildBegins(db, id, parent, step, total, now, k + 1);
      ParentStepTrace(db1, parent, step, total, now);
      if outcome == DownloadFails {
        SavedTrace(db2, id, running.(status := Error), now);
      } else {
        var db3 := Imported(db2, outcome == ImportFails, now);
        ImportedTrace(db2, outcome == ImportFails, now);
        ImportedPlainly(db2, outcome == ImportFails, now, k, parent);
        if outcome == Installs {
          ParentStepPlainly(db3, parent, step, total, now, k);
          ParentStepTrace(db3, parent, step, total, now);
          var db4 := ParentStep(db3, parent, step, total, now).0;
          SavedTrace(db4, id, running.(status := Done), now);
        }
      }
    }
  }

  /** Every child is written twice when it is created. */
  lemma {:induction false} ChildrenCreatedWrites(db: Db, n: nat, now: int)
    ensures var db' := ChildrenCreated(db, n, now);
            && db'.nextId == db.nextId + n
            && Trace(db'.log) == Trace(db.log) + seq(2 * n, i => (db.nextId + i / 2, Init))
    decreases n
  {
    hide Saved, Inserted, Trace;
    if n > 0 {
      ChildrenCreatedWrites(db, n - 1, now);
      var db1, r := ChildrenCreated(db, n - 1, now), NewTask(CHILD_TYPE);
      NextIds(db1, r, now);
      InsertedTrace(db1, r, now);
      SavedTrace(Inserted(db1, r, now), db1.nextId, r.(createdAt := now), now);
      assert seq(2 * n, i => (db.nextId + i / 2, Init))
          == seq(2 * (n - 1), i => (db.nextId + i / 2, Init)) + [(db1.nextId, Init)] + [(db1.nextId, Init)];
    }
  }

  lemma NextIds(db: Db, r: Row, now: int)
    ensures Inserted(db, r, now).nextId == db.nextId + 1
    ensures Saved(Inserted(db, r, now), db.nextId, r.(createdAt := now), now).nextId == db.nextId + 1
  {
  }

  // ----- The table in the course of a run

  /**
   The table holds the rows of base, of which only the parent's has changed, one row per child from
   first on with the given statuses, and then one row per import.
   */
  ghost predicate Holds(db: Db, base: Rows, first: nat, parent: nat, r: Row, children: seq<Status>, imports: seq<Status>, now: int) {
    var n, m := |children|, |imports|;
    && parent in base && (forall id | id in base :: id < first)
    && db.nextId == first + n + m
    && (forall id :: id in db.rows <==> id in base || first <= id < first + n + m)
    && (forall id | id in base :: db.rows[id] == if id == parent then r else base[id])
    && (forall id | first <= id < first + n :: db.rows[id] == ChildRow(children[id - first], now))
    && (forall id | first + n <= id < first + n + m :: db.rows[id] == ImportRow(imports[id - first - n], now))
  }

  /** Of n children those before f have status s, f has t and the rest u. */
  function Around(n: nat, f: nat, s: Status, t: Status, u: Status): (r: seq<Status>)
    ensures |r| == n && forall j | 0 <= j < n :: r[j] == if j < f then s else if j == f then t else u
  {
    seq(n, j => if j < f then s else if j == f then t else u)
  }

  lemma ChildReplaced(db: Db, db': Db, base: Rows, first: nat, parent: nat, r: Row, n: nat, i: nat, s: Status, imports: seq<Status>, now: int)
    requires i < n && Holds(db, base, first, parent, r, Around(n, i, Done, Init, Init), imports, now)
    requires db'.rows == db.rows[first + i := ChildRow(s, now)] && db'.nextId == db.nextId
    ensures Holds(db', base, first, parent, r, Around(n, i, Done, s, Init), imports, now)
  {
    hide ChildRow, ImportRow;
    var before, after := Around(n, i, Done, Init, Init), Around(n, i, Done, s, Init);
    forall id | first <= id < first + n
      ensures db'.rows[id] == ChildRow(after[id - first], now)
    {
      assert db.rows[id] == ChildRow(before[id - first], now);
    }
  }

  lemma ImportAdded(db: Db, db': Db, base: Rows, first: nat, parent: nat, r: Row, children: seq<Status>, i: nat, s: Status, now: int)
    requires Holds(db, base, first, parent, r, children, Around(i, i, Done, Done, Done), now)
    requires db'.rows == db.rows[db.nextId := ImportRow(s, now)] && db'.nextId == db.nextId + 1
    ensures Holds(db', base, first, parent, r, children, Around(i + 1, i, Done, s, Done), now)
  {
  }

  lemma HoldsAfterChild(db: Db, db': Db, base: Rows, first: nat, parent: nat, r: Row, n: nat, i: nat, outcome: ChildOutcome, p: Progress, now: int)
    requires i < n && Holds(db, base, first, parent, r, Around(n, i, Done, Init, Init), Around(i, i, Done, Done, Done), now)
    requires db'.nextId == db.nextId + Imports(outcome)
    requires first + i in db.rows && parent in db.rows
    requires db'.rows == RowsAfterChild(db, first + i, parent, p, outcome, now)
    ensures Holds(db', base, first, parent, if ChildReports(outcome) == 0 then r else r.(progress := Some(p)),
                  Around(n, i, Done, ChildStatus(outcome), Init),
                  Around(i + Imports(outcome), i, Done, if outcome == ImportFails then Pending else Done, Done), now)
  {
    ParentRowIn(db, base, first, parent, r, Around(n, i, Done, Init, Init), Around(i, i, Done, Done, Done), now);
    hide Holds, Around, ChildRow, ImportRow;
    var none, r' := Around(i, i, Done, Done, Done), r.(progress := Some(p));
    var s := ChildStatus(outcome);
    var db1 := db.(rows := db.rows[first + i := ChildRow(s, now)]);
    var db2 := db1.(rows := db1.rows[parent := r']);
    var children := Around(n, i, Done, s, Init);
    ChildReplaced(db, db1, base, first, parent, r, n, i, s, none, now);
    ParentReplaced(db1, db2, base, first, parent, r, r', children, none, now);
    match outcome {
      case ReleaseNotFound => SameHolds(db1, db', base, first, parent, r, children, i, now);
      case DownloadFails => SameHolds(db2, db', base, first, parent, r', children, i, now);
      case ImportFails => ImportAdded(db2, db', base, first, parent, r', children, i, Pending, now);
      case Installs => ImportAdded(db2, db', base, first, parent, r', children, i, Done, now);
    }
  }

  lemma SameHolds(db: Db, db': Db, base: Rows, first: nat, parent: nat, r: Row, children: seq<Status>, i: nat, now: int)
    requires Holds(db, base, first, parent, r, children, Around(i, i, Done, Done, Done), now)
    requires db'.rows == db.rows && db'.nextId == db.nextId
    ensures Holds(db', base, first, parent, r, children, Around(i + 0, i, Done, Done, Done), now)
  {
  }

  lemma HoldsRest(db: Db, base: Rows, first: nat, parent: nat, r: Row, n: nat, f: nat, s: Status, imports: seq<Status>, now: int)
    requires f < n && Holds(db, base, first, parent, r, Around(n, f, Done, s, Init), imports, now)
    ensures Holds(StatusUpdated(db, first + f + 1, first + n, Canceled), base, first, parent, r,
                  Around(n, f, Done, s, Canceled), imports, now)
  {
    hide ImportRow;
    var before, after := Around(n, f, Done, s, Init), Around(n, f, Done, s, Canceled);
    var db' := StatusUpdated(db, first + f + 1, first + n, Canceled);
    forall id | first <= id < first + n
      ensures db'.rows[id] == ChildRow(after[id - first], now)
    {
      assert db.rows[id] == ChildRow(before[id - first], now);
    }
  }

  /** Child i on its turn is initial, and the next id is free. */
  lemma HoldsChild(db: Db, base: Rows, first: nat, parent: nat, r: Row, n: nat, i: nat, imports: seq<Status>, now: int)
    requires i < n && Holds(db, base, first, parent, r, Around(n, i, Done, Init, Init), imports, now)
    ensures first + i in db.rows && db.rows[first + i] == ChildRow(Init, now)
    ensures parent in db.rows && parent < first && db.nextId !in db.rows
  {
  }

  lemma HoldsNext(db: Db, base: Rows, first: nat, parent: nat, r: Row, n: nat, i: nat, now: int)
    requires i < n
    requires Holds(db, base, first, parent, r, Around(n, i, Done, Done, Init), Around(i + 1, i, Done, Done, Done), now)
    ensures Holds(db, base, first, parent, r, Around(n, i + 1, Done, Init, Init), Around(i + 1, i + 1, Done, Done, Done), now)
  {
    assert Around(n, i, Done, Done, Init) == Around(n, i + 1, Done, Init, Init);
    assert Around(i + 1, i, Done, Done, Done) == Around(i + 1, i + 1, Done, Done, Done);
  }

  // ----- The loop over the children

  /** The reports of children i to f - 1: each step twice. */
  function StepReports(i: nat, f: nat, total: nat): seq<Option<Progress>>
    requires i <= f
    decreases f - i
  {
    if i == f then [] else Times(Some(StepProgress(i + 1, total)), 2) + StepReports(i + 1, f, total)
  }

  /** The parent's row when step steps have been reported. */
  function Reported(r: Row, step: nat, total: nat): Row {
    r.(progress := Some(StepProgress(step, total)))
  }

  /** The table and reports at the end of the loop, f being the child that failed, or the number of children. */
  ghost predicate LoopDone(db: Db, log: seq<Write>, base: Rows, first: nat, parent: nat, r: Row, outcomes: seq<ChildOutcome>,
                           i: nat, f: nat, total: nat, now: int)
    requires i <= f <= |outcomes|
  {
    var n := |outcomes|;
    if f == n then
      && Room(db, 0)
      && Holds(db, base, first, parent, Reported(r, n, total), Around(n, n, Done, Done, Done), Around(n, n, Done, Done, Done), now)
      && Reports(db.log, parent) == Reports(log, parent) + StepReports(i, n, total)
    else
      && Holds(db, base, first, parent, Reported(r, if outcomes[f] == ReleaseNotFound then f else f + 1, total),
               Around(n, f, Done, ChildStatus(outcomes[f]), Canceled),
               Around(f + Imports(outcomes[f]), f, Done, if outcomes[f] == ImportFails then Pending else Done, Done), now)
      && Reports(db.log, parent) == Reports(log, parent) + StepReports(i, f, total)
                                    + Times(Some(StepProgress(f + 1, total)), ChildReports(outcomes[f]))
  }

  lemma {:induction false} ChildrenPlainly(db: Db, base: Rows, first: nat, parent: nat, r: Row, outcomes: seq<ChildOutcome>, i: nat, total: nat, now: int)
    requires i <= |outcomes| && Room(db, |outcomes| - i)
    requires Holds(db, base, first, parent, Reported(r, i, total), Around(|outcomes|, i, Done, Init, Init), Around(i, i, Done, Done, Done), now)
    ensures var (db', ok) := ChildrenInstalled(db, first, parent, outcomes, i, total, now);
            var f := FirstFailure(outcomes, i);
            (ok <==> f == |outcomes|) && LoopDone(db', db.log, base, first, parent, r, outcomes, i, f, total, now)
    decreases |outcomes| - i
  {
    hide ChildInstalled, StatusUpdated, Room, Holds, RowsAfterChild, Reports, LoopDone, StepProgress, Around, Reported;
    var n := |outcomes|;
    if i == n {
      LoopOver(db, base, first, parent, r, outcomes, total, now);
    } else {
      var (db', ok) := ChildInstalled(db, first + i, parent, i + 1, total, outcomes[i], now);
      HoldsChild(db, base, first, parent, Reported(r, i, total), n, i, Around(i, i, Done, Done, Done), now);
      ChildPlainly(db, first + i, parent, i + 1, total, outcomes[i], now, n - i - 1);
      HoldsAfterChild(db, db', base, first, parent, Reported(r, i, total), n, i, outcomes[i], StepProgress(i + 1, total), now);
      if ok {
        ReportedOnce(r, i, total);
        HoldsNext(db', base, first, parent, Reported(r, i + 1, total), n, i, now);
        ChildrenPlainly(db', base, first, parent, r, outcomes, i + 1, total, now);
        var (db'', _) := ChildrenInstalled(db', first, parent, outcomes, i + 1, total, now);
        LoopOnwards(db'', db.log, db'.log, base, first, parent, r, outcomes, i, FirstFailure(outcomes, i + 1), total, now);
      } else {
        LoopFailed(db', db.log, base, first, parent, r, outcomes, i, total, now);
      }
    }
  }

  lemma ReportedOnce(r: Row, i: nat, total: nat)
    ensures Reported(r, i, total).(progress := Some(StepProgress(i + 1, total))) == Reported(r, i + 1, total)
  {
  }

  lemma LoopOver(db: Db, base: Rows, first: nat, parent: nat, r: Row, outcomes: seq<ChildOutcome>, total: nat, now: int)
    requires Room(db, 0)
    requires var n := |outcomes|;
             Holds(db, base, first, parent, Reported(r, n, total), Around(n, n, Done, Init, Init), Around(n, n, Done, Done, Done), now)
    ensures LoopDone(db, db.log, base, first, parent, r, outcomes, |outcomes|, |outcomes|, total, now)
  {
    var n := |outcomes|;
    assert Around(n, n, Done, Init, Init) == Around(n, n, Done, Done, Done);
  }

  lemma LoopOnwards(db: Db, log: seq<Write>, log': seq<Write>, base: Rows, first: nat, parent: nat, r: Row, outcomes: seq<ChildOutcome>,
                    i: nat, f: nat, total: nat, now: int)
    requires i < f <= |outcomes|
    requires Reports(log', parent) == Reports(log, parent) + Times(Some(StepProgress(i + 1, total)), 2)
    requires LoopDone(db, log', base, first, parent, r, outcomes, i + 1, f, total, now)
    ensures LoopDone(db, log, base, first, parent, r, outcomes, i, f, total, now)
  {
    hide Holds, Room, Reports, Times, Around, StepProgress;
  }

  lemma LoopFailed(db: Db, log: seq<Write>, base: Rows, first: nat, parent: nat, r: Row, outcomes: seq<ChildOutcome>,
                   f: nat, total: nat, now: int)
    requires f < |outcomes| && outcomes[f] != Installs
    requires var o, p := outcomes[f], StepProgress(f + 1, total);
             var r' := Reported(r, f, total);
             && Holds(db, base, first, parent, if ChildReports(o) == 0 then r' else r'.(progress := Some(p)),
                      Around(|outcomes|, f, Done, ChildStatus(o), Init),
                      Around(f + Imports(o), f, Done, if o == ImportFails then Pending else Done, Done), now)
             && Reports(db.log, parent) == Reports(log, parent) + Times(Some(p), ChildReports(o))
    ensures LoopDone(StatusUpdated(db, first + f + 1, first + |outcomes|, Canceled), log, base, first, parent, r, outcomes, f, f, total, now)
  {
    hide Holds, Reports, Times, Around, StepProgress;
    var o := outcomes[f];
    var r' := if ChildReports(o) == 0 then Reported(r, f, total) else Reported(r, f + 1, total);
    HoldsRest(db, base, first, parent, r', |outcomes|, f, ChildStatus(o),
              Around(f + Imports(o), f, Done, if o == ImportFails then Pending else Done, Done), now);
    assert Reports(log, parent) + [] + Times(Some(StepProgress(f + 1, total)), ChildReports(o))
        == Reports(log, parent) + Times(Some(StepProgress(f + 1, total)), ChildReports(o));
  }

  // ----- The start

  lemma {:induction false} ChildrenCreatedPlainly(db: Db, base: Rows, parent: nat, r: Row, n: nat, now: int, k: nat)
    requires Room(db, n + k) && db.rows == base[parent := r] && parent in base
    ensures var db' := ChildrenCreated(db, n, now);
            && Room(db', k)
            && Holds(db', base, db.nextId, parent, r, Around(n, 0, Done, Init, Init), [], now)
            && Reports(db'.log, parent) == Reports(db.log, parent)
    decreases n
  {
    hide Room, Holds, Around, Reports, Saved, Inserted;
    if n > 0 {
      ChildrenCreatedPlainly(db, base, parent, r, n - 1, now, k + 1);
      var db1 := ChildrenCreated(db, n - 1, now);
      ParentRowIn(db1, base, db.nextId, parent, r, Around(n - 1, 0, Done, Init, Init), [], now);
      NextIsFree(db1, base, db.nextId, parent, r, Around(n - 1, 0, Done, Init, Init), now);
      ChildCreatedPlainly(db1, now, k, parent);
      ChildAdded(db1, ChildrenCreated(db, n, now), base, db.nextId, parent, r, n - 1, now);
    } else {
      NoChildrenIn(db, base, parent, r, k, now);
    }
  }

  lemma NoChildrenIn(db: Db, base: Rows, parent: nat, r: Row, k: nat, now: int)
    requires Room(db, k) && db.rows == base[parent := r] && parent in base
    ensures Holds(db, base, db.nextId, parent, r, Around(0, 0, Done, Init, Init), [], now)
  {
    assert db.rows.Keys == base.Keys;
  }

  lemma NextIsFree(db: Db, base: Rows, first: nat, parent: nat, r: Row, children: seq<Status>, now: int)
    requires Holds(db, base, first, parent, r, children, [], now)
    ensures db.nextId !in db.rows
  {
  }

  lemma ChildAdded(db: Db, db': Db, base: Rows, first: nat, parent: nat, r: Row, n: nat, now: int)
    requires Holds(db, base, first, parent, r, Around(n, 0, Done, Init, Init), [], now)
    requires db'.rows == db.rows[db.nextId := ChildRow(Init, now)] && db'.nextId == db.nextId + 1
    ensures Holds(db', base, first, parent, r, Around(n + 1, 0, Done, Init, Init), [], now)
  {
  }

  lemma ChildCreatedPlainly(db: Db, now: int, k: nat, parent: nat)
    requires Room(db, k + 1) && parent in db.rows && db.nextId !in db.rows
    ensures var r := NewTask(CHILD_TYPE);
            var db' := Saved(Inserted(db, r, now), db.nextId, r.(createdAt := now), now);
            && Room(db', k) && db'.rows == db.rows[db.nextId := ChildRow(Init, now)] && db'.nextId == db.nextId + 1
            && Reports(db'.log, parent) == Reports(db.log, parent)
  {
    hide Room, Saved, Inserted, Reports;
    var r := NewTask(CHILD_TYPE);
    InsertedPlainly(db, r, now, k, parent);
    SavedPlainly(Inserted(db, r, now), db.nextId, r.(createdAt := now), now, k, parent);
  }

  /** The parent's row after the start, apart from its progress. */
  lemma StartPlainly(db: Db, parent: nat, n: nat, actions: nat, now: int, k: nat)
    requires parent in db.rows && Room(db, n + k)
    ensures var s, r := PackageStarted(db, parent, n, actions, now), db.rows[parent];
            && Room(s, k)
            && Holds(s, db.rows, db.nextId, parent, Reported(Remembered(r), 0, n + actions), Around(n, 0, Done, Init, Init), [], now)
            && Reports(s.log, parent) == Reports(db.log, parent) + [r.progress, Some(StepProgress(0, n + actions))]
  {
    hide Room, Reports, Saved, ChildrenCreated, Holds, StepProgress, Around;
    var r, total := db.rows[parent], n + actions;
    SavedPlainly(db, parent, r, now, n + k, parent);
    var db0 := Saved(db, parent, r, now);
    assert db0.rows == db.rows[parent := r];
    ChildrenCreatedPlainly(db0, db.rows, parent, r, n, now, k);
    var db1 := ChildrenCreated(db0, n, now);
    ParentRowIn(db1, db.rows, db.nextId, parent, r, Around(n, 0, Done, Init, Init), [], now);
    var r1 := Remembered(r).(progress := Some(Progress(0, total, 0)));
    ZeroProgress(total);
    SavedPlainly(db1, parent, r1, now, k, parent);
    ParentReplaced(db1, Saved(db1, parent, r1, now), db.rows, db.nextId, parent, r, r1, Around(n, 0, Done, Init, Init), [], now);
  }

  lemma ZeroProgress(total: nat)
    ensures StepProgress(0, total) == Progress(0, total, 0)
  {
  }

  lemma ParentRowIn(db: Db, base: Rows, first: nat, parent: nat, r: Row, children: seq<Status>, imports: seq<Status>, now: int)
    requires Holds(db, base, first, parent, r, children, imports, now)
    ensures parent in db.rows && db.rows[parent] == r
  {
  }

  lemma ParentReplaced(db: Db, db': Db, base: Rows, first: nat, parent: nat, r: Row, r': Row, children: seq<Status>, imports: seq<Status>, now: int)
    requires Holds(db, base, first, parent, r, children, imports, now)
    requires db'.rows == db.rows[parent := r'] && db'.nextId == db.nextId
    ensures Holds(db', base, first, parent, r', children, imports, now)
  {
  }

  // ----- The end

  /** The reports of the actions after step of them. */
  function ActionReports(step: nat, total: nat): seq<Option<Progress>>
    requires step <= total
    decreases total - step
  {
    if step == total then [] else [Some(StepProgress(step + 1, total))] + ActionReports(step + 1, total)
  }

  /** A row in memory whose expiry is settled. */
  predicate Settled(r: Row) {
    ExpiryAfterSave(r) == r.expiryAt
  }

  lemma ParentSavedPlainly(db: Db, parent: nat, r: Row, p: Progress, now: int)
    requires Room(db, 0) && parent in db.rows && r.kind == db.rows[parent].kind && Settled(r)
    ensures var (db', r') := ParentSaved(db, parent, r, p, now);
            && r' == r.(progress := Some(p)) && Room(db', 0) && db'.rows == db.rows[parent := r'] && db'.nextId == db.nextId
            && Reports(db'.log, parent) == Reports(db.log, parent) + [Some(p)]
  {
    hide Room, Reports, Saved;
    SavedPlainly(db, parent, r.(progress := Some(p)), now, 0, parent);
  }

  lemma {:induction false} ActionsPlainly(db: Db, parent: nat, r: Row, step: nat, total: nat, now: int)
    requires step <= total && Room(db, 0) && parent in db.rows && db.rows[parent] == Reported(r, step, total) && Settled(r)
    ensures var (db', r') := ActionsRun(db, parent, Reported(r, step, total), step, total, now);
            && r' == Reported(r, total, total) && Room(db', 0) && db'.rows == db.rows[parent := r'] && db'.nextId == db.nextId
            && Reports(db'.log, parent) == Reports(db.log, parent) + ActionReports(step, total)
    decreases total - step
  {
    hide Room, Reports, ParentSaved, StepProgress;
    if step < total {
      var p := StepProgress(step + 1, total);
      ParentSavedPlainly(db, parent, Reported(r, step, total), p, now);
      var (db', r') := ParentSaved(db, parent, Reported(r, step, total), p, now);
      ActionsPlainly(db', parent, r, step + 1, total, now);
    }
  }

  /** The reports of a finished package after its children. */
  function EndReports(n: nat, total: nat): seq<Option<Progress>>
    requires n <= total
  {
    [Some(Progress(n, total, 100))]
    + (if n == total then [] else [Some(StepProgress(n, total))] + ActionReports(n, total))
    + [Some(Progress(total, total, 100))]
  }

  lemma FinishPlainly(db: Db, parent: nat, r: Row, n: nat, actions: nat, now: int)
    requires Room(db, 0) && parent in db.rows && r.kind == db.rows[parent].kind && Settled(r)
    ensures var db', total := PackageFinished(db, parent, r, n, actions, now), n + actions;
            && db'.rows == db.rows[parent := r.(status := Done, progress := Some(Progress(total, total, 100)))]
            && db'.nextId == db.nextId
            && Reports(db'.log, parent) == Reports(db.log, parent) + EndReports(n, total)
  {
    hide Room, Reports, ParentSaved, Saved, ActionsRun, StepProgress;
    var total := n + actions;
    ParentSavedPlainly(db, parent, r, Progress(n, total, 100), now);
    var (db1, r1) := ParentSaved(db, parent, r, Progress(n, total, 100), now);
    if actions > 0 {
      ParentSavedPlainly(db1, parent, r1, StepProgress(n, total), now);
      var (db2, r2) := ParentSaved(db1, parent, r1, StepProgress(n, total), now);
      assert r2 == Reported(r, n, total);
      ActionsPlainly(db2, parent, r, n, total, now);
      var (db3, r3) := ActionsRun(db2, parent, r2, n, total, now);
      FullProgress(total);
      SavedPlainly(db3, parent, r3.(status := Done), now, 0, parent);
      assert [Some(Progress(n, total, 100))] + ([Some(StepProgress(n, total))] + ActionReports(n, total)) + [Some(Progress(total, total, 100))]
          == [Some(Progress(n, total, 100))] + [Some(StepProgress(n, total))] + ActionReports(n, total) + [Some(Progress(total, total, 100))];
    } else {
      SavedPlainly(db1, parent, r1.(status := Done), now, 0, parent);
    }
  }

  lemma FullProgress(total: nat)
    requires total > 0
    ensures StepProgress(total, total) == Progress(total, total, 100)
  {
    PercentMeaning(total, total);
  }

  // ----- The whole run

  /** What every run reports first: the progress it found, and 0. */
  function StartReports(db: Db, parent: nat, total: nat): seq<Option<Progress>>
    requires parent in db.rows
  {
    Reports(db.log, parent) + [db.rows[parent].progress, Some(StepProgress(0, total))]
  }

  /**
   A finished run: the table before with one row per child and one per import, all done, and the
   parent done at full progress; reported were each step twice, the end of the children, each action
   and the end.
   */
  ghost predicate Finished(db: Db, db': Db, parent: nat, n: nat, total: nat, now: int)
    requires parent in db.rows && n <= total
  {
    var done := Around(n, n, Done, Done, Done);
    && Holds(db', db.rows, db.nextId, parent,
             Remembered(db.rows[parent]).(status := Done, progress := Some(Progress(total, total, 100))), done, done, now)
    && Reports(db'.log, parent) == StartReports(db, parent, total) + StepReports(0, n, total) + EndReports(n, total)
  }

  /**
   A run that stopped at child f: the children before it done, it as its failure leaves it and those
   after it cancelled, the imports begun, and the parent as it was with the last step reported.
   */
  ghost predicate Stopped(db: Db, db': Db, parent: nat, outcomes: seq<ChildOutcome>, f: nat, total: nat, now: int)
    requires parent in db.rows && f < |outcomes|
  {
    var o := outcomes[f];
    && Holds(db', db.rows, db.nextId, parent,
             Reported(Remembered(db.rows[parent]), if o == ReleaseNotFound then f else f + 1, total),
             Around(|outcomes|, f, Done, ChildStatus(o), Canceled),
             Around(f + Imports(o), f, Done, if o == ImportFails then Pending else Done, Done), now)
    && Reports(db'.log, parent) == StartReports(db, parent, total) + StepReports(0, f, total)
                                   + Times(Some(StepProgress(f + 1, total)), ChildReports(o))
  }

  /**
   A package run on a table with room for two tasks a child, exactly: it returns normally if and only
   if every child installs, and leaves the table and the reports of a finished run, or of one that
   stopped at the first child that does not install.
   */
  lemma PackageExactly(db: Db, parent: nat, outcomes: seq<ChildOutcome>, actions: nat, now: int)
    requires parent in db.rows && Room(db, 2 * |outcomes|)
    ensures var n, f, total := |outcomes|, FirstFailure(outcomes, 0), |outcomes| + actions;
            var (db', ok) := PackageInstalled(db, parent, true, outcomes, actions, now);
            && (ok <==> f == n)
            && (if ok then Finished(db, db', parent, n, total, now) else Stopped(db, db', parent, outcomes, f, total, now))
  {
    hide *;
    var n, f, total, first := |outcomes|, FirstFailure(outcomes, 0), |outcomes| + actions, db.nextId;
    var r := Remembered(db.rows[parent]);
    var started := PackageStarted(db, parent, n, actions, now);
    StartPlainly(db, parent, n, actions, now, n);
    NoImportsYet(started, db.rows, first, parent, Reported(r, 0, total), Around(n, 0, Done, Init, Init), now);
    ParentRowIn(started, db.rows, first, parent, Reported(r, 0, total), Around(n, 0, Done, Init, Init), [], now);
    PackageUnfolds(db, parent, outcomes, actions, now);
    ChildrenPlainly(started, db.rows, first, parent, r, outcomes, 0, total, now);
    var (db1, ok) := ChildrenInstalled(started, first, parent, outcomes, 0, total, now);
    if ok {
      FinishedEnd(db, started, db1, parent, outcomes, actions, now);
    } else {
      StoppedEnd(db, started, db1, parent, outcomes, f, total, now);
    }
  }

  lemma FinishedEnd(db: Db, started: Db, db1: Db, parent: nat, outcomes: seq<ChildOutcome>, actions: nat, now: int)
    requires parent in db.rows && parent in started.rows
    requires started.rows[parent] == Reported(Remembered(db.rows[parent]), 0, |outcomes| + actions)
    requires Reports(started.log, parent)
             == Reports(db.log, parent) + [db.rows[parent].progress, Some(StepProgress(0, |outcomes| + actions))]
    requires LoopDone(db1, started.log, db.rows, db.nextId, parent, Remembered(db.rows[parent]), outcomes, 0, |outcomes|,
                      |outcomes| + actions, now)
    ensures Finished(db, PackageFinished(db1, parent, started.rows[parent], |outcomes|, actions, now), parent, |outcomes|,
                     |outcomes| + actions, now)
  {
    hide LoopDone, Holds, Reports, PackageFinished, Around, StepProgress, EndReports, StepReports, Room, Reported, Remembered;
    var n, total, r := |outcomes|, |outcomes| + actions, Remembered(db.rows[parent]);
    ChildrenAllDone(db1, started.log, db.rows, db.nextId, parent, r, outcomes, total, now);
    SettledStart(db.rows[parent], 0, total);
    FinishHolds(db1, db.rows, db.nextId, parent, r, started.rows[parent], n, actions, now);
  }

  lemma StoppedEnd(db: Db, started: Db, db1: Db, parent: nat, outcomes: seq<ChildOutcome>, f: nat, total: nat, now: int)
    requires parent in db.rows && f < |outcomes|
    requires Reports(started.log, parent) == Reports(db.log, parent) + [db.rows[parent].progress, Some(StepProgress(0, total))]
    requires LoopDone(db1, started.log, db.rows, db.nextId, parent, Remembered(db.rows[parent]), outcomes, 0, f, total, now)
    ensures Stopped(db, db1, parent, outcomes, f, total, now)
  {
    hide LoopDone, Holds, Reports, Around, StepProgress, StepReports, Times, Reported, Remembered, ChildStatus, Imports, ChildReports;
    ChildFailed(db1, started.log, db.rows, db.nextId, parent, Remembered(db.rows[parent]), outcomes, f, total, now);
  }

  lemma ChildrenAllDone(db: Db, log: seq<Write>, base: Rows, first: nat, parent: nat, r: Row, outcomes: seq<ChildOutcome>, total: nat, now: int)
    requires LoopDone(db, log, base, first, parent, r, outcomes, 0, |outcomes|, total, now)
    ensures var n := |outcomes|;
            && Room(db, 0)
            && Holds(db, base, first, parent, Reported(r, n, total), Around(n, n, Done, Done, Done), Around(n, n, Done, Done, Done), now)
            && Reports(db.log, parent) == Reports(log, parent) + StepReports(0, n, total)
  {
    hide Holds, Reports, Room, Around, StepReports, StepProgress;
  }

  lemma ChildFailed(db: Db, log: seq<Write>, base: Rows, first: nat, parent: nat, r: Row, outcomes: seq<ChildOutcome>, f: nat, total: nat, now: int)
    requires f < |outcomes| && LoopDone(db, log, base, first, parent, r, outcomes, 0, f, total, now)
    ensures Holds(db, base, first, parent, Reported(r, if outcomes[f] == ReleaseNotFound then f else f + 1, total),
                  Around(|outcomes|, f, Done, ChildStatus(outcomes[f]), Canceled),
                  Around(f + Imports(outcomes[f]), f, Done, if outcomes[f] == ImportFails then Pending else Done, Done), now)
    ensures Reports(db.log, parent) == Reports(log, parent) + StepReports(0, f, total)
                                       + Times(Some(StepProgress(f + 1, total)), ChildReports(outcomes[f]))
  {
    hide Holds, Reports, Room, Around, StepReports, StepProgress;
  }

  lemma FinishHolds(db: Db, base: Rows, first: nat, parent: nat, r: Row, r0: Row, n: nat, actions: nat, now: int)
    requires Room(db, 0) && r0 == Reported(r, 0, n + actions) && Settled(r0)
    requires Holds(db, base, first, parent, Reported(r, n, n + actions), Around(n, n, Done, Done, Done), Around(n, n, Done, Done, Done), now)
    ensures var db', total := PackageFinished(db, parent, r0, n, actions, now), n + actions;
            && Holds(db', base, first, parent, r.(status := Done, progress := Some(Progress(total, total, 100))),
                     Around(n, n, Done, Done, Done), Around(n, n, Done, Done, Done), now)
            && Reports(db'.log, parent) == Reports(db.log, parent) + EndReports(n, total)
  {
    hide Room, Holds, PackageFinished, Around, Reports, EndReports, Settled, StepProgress;
    var total := n + actions;
    var done := Around(n, n, Done, Done, Done);
    ParentRowIn(db, base, first, parent, Reported(r, n, total), done, done, now);
    FinishPlainly(db, parent, r0, n, actions, now);
    ParentReplaced(db, PackageFinished(db, parent, r0, n, actions, now), base, first, parent, Reported(r, n, total),
                   r.(status := Done, progress := Some(Progress(total, total, 100))), done, done, now);
  }

  lemma NoImportsYet(db: Db, base: Rows, first: nat, parent: nat, r: Row, children: seq<Status>, now: int)
    requires Holds(db, base, first, parent, r, children, [], now)
    ensures Holds(db, base, first, parent, r, children, Around(0, 0, Done, Done, Done), now)
  {
    assert Around(0, 0, Done, Done, Done) == [];
  }

  lemma SettledStart(r: Row, step: nat, total: nat)
    ensures Settled(Reported(Remembered(r), step, total)) && Reported(Remembered(r), step, total).kind == r.kind
  {
  }
}
