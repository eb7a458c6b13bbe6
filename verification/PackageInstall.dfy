/**
 Installing a configuration package: one child task a dependency, run one after another, on the
 table of TaskStore with everything that its saves prune.
 */
module PackageInstall {
  import opened TaskStore

  const CHILD_TYPE := "install_configuration_from_marketplace"
  const IMPORT_TYPE := "configuration_import"

  /** How the remote calls of one child turn out. */
  datatype ChildOutcome = Installs | ReleaseNotFound | DownloadFails | ImportFails

  function NewTask(kind: string): Row {
    Row(Some(kind), Init, 0, 0, None, None, None)
  }

  /** `int((step / total) * 100)`. */
  function Percent(step: nat, total: nat): nat {
    if total == 0 then 0 else step * 100 / total
  }

  function StepProgress(step: nat, total: nat): Progress {
    Progress(step, total, Percent(step, total))
  }

  // ----- The installer as functions of the table

  /** The child's report to its parent; a parent that has been pruned meanwhile cannot be refreshed. */
  function ParentStep(db: Db, parent: nat, step: nat, total: nat, now: int): (Db, bool) {
    if parent !in db.rows then (db, false)
    else (Saved(db, parent, db.rows[parent].(progress := Some(StepProgress(step, total))), now), true)
  }

  /** The import task that a child creates and runs to its end or failure. */
  function Imported(db: Db, fails: bool, now: int): Db {
    var id := db.nextId;
    var created := Saved(Inserted(db, NewTask(IMPORT_TYPE), now), id, NewTask(IMPORT_TYPE).(createdAt := now), now);
    var running := Saved(created, id, NewTask(IMPORT_TYPE).(createdAt := now, status := Pending), now);
    if fails then running
    else Saved(running, id, NewTask(IMPORT_TYPE).(createdAt := now, status := Done), now)
  }

  /** The child's last part: report, and save the child as done. */
  function ChildFinished(db: Db, id: nat, r: Row, parent: nat, linked: bool, step: nat, total: nat, now: int): (Db, bool) {
    var (db', ok) := if linked then ParentStep(db, parent, step, total, now) else (db, true);
    if !ok then (db', false) else (Saved(db', id, r.(status := Done), now), true)
  }

  /** `install_configuration_from_marketplace`: the table afterwards, and whether it returned normally. */
  function ChildInstalled(db: Db, id: nat, parent: nat, step: nat, total: nat, outcome: ChildOutcome, now: int): (Db, bool) {
    if id !in db.rows then (db, false)
    else
      var running := db.rows[id].(status := Pending);
      var linked := parent in db.rows;
      var db1 := Saved(db, id, running, now);
      var r := Remembered(running);
      if outcome == ReleaseNotFound then (Saved(db1, id, r.(status := Error), now), false)
      else
        var (db2, ok) := if linked then ParentStep(db1, parent, step, total, now) else (db1, true);
        if !ok then (db2, false)
        else if outcome == DownloadFails then (Saved(db2, id, r.(status := Error), now), false)
        else
          var db3 := Imported(db2, outcome == ImportFails, now);
          if outcome == ImportFails then (db3, false)
          else ChildFinished(db3, id, r, parent, linked, step, total, now)
  }

  /** `bulk_update(tasks, ["status"])`: only the status of rows that exist, and nothing is pruned. */
  function StatusUpdated(db: Db, from: nat, to: nat, status: Status): Db {
    db.(rows := map id | id in db.rows :: if from <= id < to then db.rows[id].(status := status) else db.rows[id])
  }

  /** n children are created, each saved a second time with its options. */
  function ChildrenCreated(db: Db, n: nat, now: int): Db {
    if n == 0 then db
    else
      var db' := ChildrenCreated(db, n - 1, now);
      Saved(Inserted(db', NewTask(CHILD_TYPE), now), db'.nextId, NewTask(CHILD_TYPE).(createdAt := now), now)
  }

  /** Children i onwards of those created from id first on; a failure cancels the ones after it. */
  function ChildrenInstalled(db: Db, first: nat, parent: nat, outcomes: seq<ChildOutcome>, i: nat, total: nat, now: int): (Db, bool)
    requires i <= |outcomes|
    decreases |outcomes| - i
  {
    if i == |outcomes| then (db, true)
    else
      var (db', ok) := ChildInstalled(db, first + i, parent, i + 1, total, outcomes[i], now);
      if ok then ChildrenInstalled(db', first, parent, outcomes, i + 1, total, now)
      else (StatusUpdated(db', first + i + 1, first + |outcomes|, Canceled), false)
  }

  /** The parent's own saves: its fields in memory with a new progress. */
  function ParentSaved(db: Db, parent: nat, r: Row, p: Progress, now: int): (Db, Row) {
    var r' := r.(progress := Some(p));
    (Saved(db, parent, r', now), Remembered(Written(db, parent, r', now)))
  }

  /** One report for each finished action, after step of them. */
  function ActionsRun(db: Db, parent: nat, r: Row, step: nat, total: nat, now: int): (Db, Row)
    requires step <= total
    decreases total - step
  {
    if step == total then (db, r)
    else
      var (db', r') := ParentSaved(db, parent, r, StepProgress(step + 1, total), now);
      ActionsRun(db', parent, r', step + 1, total, now)
  }

  /** The parent once all children are installed: the actions run, and the parent is done. */
  function PackageFinished(db: Db, parent: nat, r: Row, deps: nat, actions: nat, now: int): Db {
    var (db1, r1) := ParentSaved(db, parent, r, Progress(deps, deps + actions, 100), now);
    var (db2, r2) := if actions == 0 then (db1, r1)
                     else
                       var (db', r') := ParentSaved(db1, parent, r1, StepProgress(deps, deps + actions), now);
                       ActionsRun(db', parent, r', deps, deps + actions, now);
    Saved(db2, parent, r2.(status := Done), now)
  }

  /** The package's start: the parent is saved with its options, the children created, progress set to 0. */
  function PackageStarted(db: Db, parent: nat, deps: nat, actions: nat, now: int): Db
    requires parent in db.rows
  {
    var r := db.rows[parent];
    var db1 := ChildrenCreated(Saved(db, parent, r, now), deps, now);
    ParentSaved(db1, parent, Remembered(r), Progress(0, deps + actions, 0), now).0
  }

  /**
   `install_package_from_marketplace`: the table afterwards, and whether it returned normally. The
   start is one transaction: when the parent is gone at its end, only the id sequence has advanced.
   */
  function PackageInstalled(db: Db, parent: nat, releaseFound: bool, outcomes: seq<ChildOutcome>, actions: nat, now: int): (Db, bool) {
    if parent !in db.rows then (db, false)
    else if !releaseFound then (Saved(db, parent, db.rows[parent].(status := Error), now), false)
    else
      var first := db.nextId;
      var started := PackageStarted(db, parent, |outcomes|, actions, now);
      if parent !in started.rows then (db.(nextId := started.nextId), false)
      else
        var (db', ok) := ChildrenInstalled(started, first, parent, outcomes, 0, |outcomes| + actions, now);
        if !ok then (db', false)
        else (PackageFinished(db', parent, started.rows[parent], |outcomes|, actions, now), true)
  }

  // ----- The installer as the source runs it

  method InstallConfiguration(table: Table, id: nat, parent: nat, step: nat, total: nat, outcome: ChildOutcome, now: int)
    returns (ok: bool)
    modifies table
    ensures (table.State(), ok) == ChildInstalled(old(table.State()), id, parent, step, total, outcome, now)
  {
    hide Pruned;
    if id !in table.rows {
      return false;
    }
    var linked := parent in table.rows;
    var task := new Task.Load(id, table.rows[id]);
    task.status := Pending;
    task.Save(table, now);
    if outcome == ReleaseNotFound {
      task.status := Error;
      task.Save(table, now);
      return false;
    }
    if linked {
      ok := ReportToParent(table, parent, step, total, now);
      if !ok {
        return;
      }
    }
    if outcome == DownloadFails {
      task.status := Error;
      task.Save(table, now);
      return false;
    }
    RunImport(table, outcome == ImportFails, now);
    if outcome == ImportFails {
      return false;
    }
    if linked {
      ok := ReportToParent(table, parent, step, total, now);
      if !ok {
        return;
      }
    }
    task.status := Done;
    task.Save(table, now);
    ok := true;
  }

  method ReportToParent(table: Table, parent: nat, step: nat, total: nat, now: int) returns (ok: bool)
    modifies table
    ensures (table.State(), ok) == ParentStep(old(table.State()), parent, step, total, now)
  {
    hide Pruned;
    if parent !in table.rows {
      return false;
    }
    var task := new Task.Load(parent, table.rows[parent]);
    task.UpdateProgress(table, now, StepProgress(step, total));
    ok := true;
  }

  method RunImport(table: Table, fails: bool, now: int)
    modifies table
    ensures table.State() == Imported(old(table.State()), fails, now)
  {
    hide Pruned;
    var task := new Task.New(Some(IMPORT_TYPE), 0);
    task.Save(table, now);
    task.Save(table, now);
    var running := new Task.Load(task.id.value, NewTask(IMPORT_TYPE).(createdAt := now));
    running.status := Pending;
    running.Save(table, now);
    if !fails {
      running.status := Done;
      running.Save(table, now);
    }
  }

  method CreateChildren(table: Table, n: nat, now: int)
    modifies table
    ensures table.State() == ChildrenCreated(old(table.State()), n, now)
  {
    hide Pruned;
    for i := 0 to n
      invariant table.State() == ChildrenCreated(old(table.State()), i, now)
    {
      var child := new Task.New(Some(CHILD_TYPE), 0);
      child.Save(table, now);
      child.Save(table, now);
    }
  }

  method InstallPackage(table: Table, parent: nat, releaseFound: bool, outcomes: seq<ChildOutcome>, actions: nat, now: int)
    returns (ok: bool)
    modifies table
    ensures (table.State(), ok) == PackageInstalled(old(table.State()), parent, releaseFound, outcomes, actions, now)
  {
    hide Pruned, ChildrenInstalled, ChildrenCreated, PackageFinished;
    if parent !in table.rows {
      return false;
    }
    var task := new Task.Load(parent, table.rows[parent]);
    if !releaseFound {
      task.status := Error;
      task.Save(table, now);
      return false;
    }
    var first, saved := table.nextId, table.rows;
    ghost var log := table.log;
    var deps, total := |outcomes|, |outcomes| + actions;
    task.Save(table, now);
    CreateChildren(table, deps, now);
    task.UpdateProgress(table, now, Progress(0, total, 0));
    if parent !in table.rows {
      table.rows, table.log := saved, log;
      return false;
    }
    task := new Task.Load(parent, table.rows[parent]);
    ok := InstallChildren(table, first, parent, outcomes, total, now);
    if ok {
      FinishPackage(table, task, deps, actions, now);
    }
  }

  /** The loop over the children. */
  method InstallChildren(table: Table, first: nat, parent: nat, outcomes: seq<ChildOutcome>, total: nat, now: int) returns (ok: bool)
    modifies table
    ensures (table.State(), ok) == ChildrenInstalled(old(table.State()), first, parent, outcomes, 0, total, now)
  {
    hide Pruned, ChildInstalled;
    for i := 0 to |outcomes|
      invariant ChildrenInstalled(old(table.State()), first, parent, outcomes, 0, total, now)
                == ChildrenInstalled(table.State(), first, parent, outcomes, i, total, now)
    {
      var installed := InstallConfiguration(table, first + i, parent, i + 1, total, outcomes[i], now);
      if !installed {
        CancelFrom(table, first + i + 1, first + |outcomes|);
        return false;
      }
    }
    ok := true;
  }

  method CancelFrom(table: Table, from: nat, to: nat)
    modifies table`rows
    ensures table.State() == StatusUpdated(old(table.State()), from, to, Canceled)
  {
    table.rows := map id | id in table.rows :: if from <= id < to then table.rows[id].(status := Canceled) else table.rows[id];
  }

  method FinishPackage(table: Table, task: Task, deps: nat, actions: nat, now: int)
    requires task.id.Some?
    modifies table, task
    ensures table.State() == PackageFinished(old(table.State()), old(task.id.value), old(task.Fields()), deps, actions, now)
  {
    hide Pruned;
    ghost var parent := task.id.value;
    var total := deps + actions;
    task.UpdateProgress(table, now, Progress(deps, total, 100));
    if actions > 0 {
      var step := deps;
      task.UpdateProgress(table, now, StepProgress(step, total));
      ghost var expected := ActionsRun(table.State(), parent, task.Fields(), deps, total, now);
      while step < total
        invariant deps <= step <= total && task.id == Some(parent)
        invariant ActionsRun(table.State(), parent, task.Fields(), step, total, now) == expected
      {
        step := step + 1;
        task.UpdateProgress(table, now, StepProgress(step, total));
      }
    }
    task.status := Done;
    task.Save(table, now);
  }

  // ----- What one save changes

  lemma PrunedKeeps(rows: Rows)
    ensures forall k | k in Pruned(rows) :: k in rows && Pruned(rows)[k] == rows[k]
  {
  }

  /**
   From db to db' only the row id and rows created in between may change, other rows may be pruned,
   the parent keeps its status, and every write to the parent reports progress p.
   */
  ghost predicate Advances(db: Db, db': Db, id: nat, parent: nat, p: Progress) {
    && db.nextId <= db'.nextId
    && (forall k | k in db'.rows && k < db.nextId && k != id ::
          k in db.rows && (if k == parent then db'.rows[k].status == db.rows[k].status else db'.rows[k] == db.rows[k]))
    && Extends(db.log, db'.log, parent, p)
  }

  ghost predicate Extends(log: seq<Write>, log': seq<Write>, parent: nat, p: Progress) {
    && log <= log'
    && forall a | |log| <= a < |log'| && log'[a].id == parent :: log'[a].row.progress == Some(p)
  }

  lemma AdvancesOnwards(db: Db, db': Db, db'': Db, id: nat, parent: nat, p: Progress)
    requires Advances(db, db', id, parent, p) && Advances(db', db'', id, parent, p)
    ensures Advances(db, db'', id, parent, p)
  {
  }

  lemma ChildSaved(db: Db, id: nat, r: Row, now: int, parent: nat, p: Progress)
    requires id != parent
    ensures Advances(db, Saved(db, id, r, now), id, parent, p)
    ensures id in Saved(db, id, r, now).rows ==> Saved(db, id, r, now).rows[id].status == r.status
  {
    hide Pruned;
    PrunedKeeps(db.rows[id := Written(db, id, r, now)]);
  }

  lemma ParentStepAdvances(db: Db, id: nat, parent: nat, step: nat, total: nat, now: int)
    requires id != parent
    ensures var db' := ParentStep(db, parent, step, total, now).0;
            && Advances(db, db', id, parent, StepProgress(step, total))
            && (id in db'.rows ==> id in db.rows && db'.rows[id] == db.rows[id])
  {
    hide Pruned;
    if parent in db.rows {
      PrunedKeeps(db.rows[parent := db.rows[parent].(progress := Some(StepProgress(step, total)))]);
    }
  }

  /** Saving a row above all given ones. */
  lemma NewerSaved(db: Db, newer: nat, r: Row, now: int, bound: nat, parent: nat, p: Progress)
    requires bound <= newer && parent < bound
    ensures var db' := Saved(db, newer, r, now);
            && (forall k | k in db'.rows && k < bound :: k in db.rows && db'.rows[k] == db.rows[k])
            && Extends(db.log, db'.log, parent, p) && db'.nextId == db.nextId
  {
    hide Pruned;
    PrunedKeeps(db.rows[newer := Written(db, newer, r, now)]);
  }

  lemma NewerInserted(db: Db, r: Row, now: int, bound: nat, parent: nat, p: Progress)
    requires bound <= db.nextId && parent < bound
    ensures var db' := Inserted(db, r, now);
            && (forall k | k in db'.rows && k < bound :: k in db.rows && db'.rows[k] == db.rows[k])
            && Extends(db.log, db'.log, parent, p) && db'.nextId == db.nextId + 1
  {
    hide Pruned;
    PrunedKeeps(db.rows[db.nextId := r.(createdAt := now)]);
  }

  lemma ImportedAdvances(db: Db, fails: bool, now: int, id: nat, parent: nat, p: Progress)
    requires id < db.nextId && parent < db.nextId && id != parent
    ensures var db' := Imported(db, fails, now);
            && Advances(db, db', id, parent, p)
            && (id in db'.rows ==> id in db.rows && db'.rows[id] == db.rows[id])
  {
    hide Saved, Inserted, Extends;
    var n := db.nextId;
    var r := NewTask(IMPORT_TYPE).(createdAt := now);
    var db1 := Inserted(db, NewTask(IMPORT_TYPE), now);
    var db2 := Saved(db1, n, r, now);
    var db3 := Saved(db2, n, r.(status := Pending), now);
    var db4 := Saved(db3, n, r.(status := Done), now);
    NewerInserted(db, NewTask(IMPORT_TYPE), now, n, parent, p);
    NewerSaved(db1, n, r, now, n, parent, p);
    NewerSaved(db2, n, r.(status := Pending), now, n, parent, p);
    NewerSaved(db3, n, r.(status := Done), now, n, parent, p);
    ExtendsOnwards(db.log, db1.log, db2.log, parent, p);
    ExtendsOnwards(db.log, db2.log, db3.log, parent, p);
    ExtendsOnwards(db.log, db3.log, db4.log, parent, p);
  }

  lemma ExtendsOnwards(log: seq<Write>, log': seq<Write>, log'': seq<Write>, parent: nat, p: Progress)
    requires Extends(log, log', parent, p) && Extends(log', log'', parent, p)
    ensures Extends(log, log'', parent, p)
  {
  }

  lemma NothingAdvances(db: Db, id: nat, parent: nat, p: Progress)
    ensures Advances(db, db, id, parent, p)
  {
  }

  // ----- One child

  ghost predicate HasStatus(db: Db, id: nat, statuses: set<Status>) {
    id in db.rows ==> db.rows[id].status in statuses
  }

  lemma LinkedStepAdvances(db: Db, linked: bool, id: nat, parent: nat, step: nat, total: nat, now: int)
    requires id != parent
    ensures var db' := (if linked then ParentStep(db, parent, step, total, now) else (db, true)).0;
            && Advances(db, db', id, parent, StepProgress(step, total))
            && (id in db'.rows ==> id in db.rows && db'.rows[id] == db.rows[id])
  {
    hide Advances, ParentStep;
    if linked {
      ParentStepAdvances(db, id, parent, step, total, now);
    } else {
      NothingAdvances(db, id, parent, StepProgress(step, total));
    }
  }

  lemma FinishAdvances(db: Db, id: nat, r: Row, parent: nat, linked: bool, step: nat, total: nat, now: int)
    requires id != parent && HasStatus(db, id, {Pending})
    ensures var (db', ok) := ChildFinished(db, id, r, parent, linked, step, total, now);
            && Advances(db, db', id, parent, StepProgress(step, total))
            && HasStatus(db', id, if ok then {Done} else {Pending})
  {
    hide Advances, ParentStep, Saved;
    var p := StepProgress(step, total);
    LinkedStepAdvances(db, linked, id, parent, step, total, now);
    var (db1, ok) := if linked then ParentStep(db, parent, step, total, now) else (db, true);
    if ok {
      ChildSaved(db1, id, r.(status := Done), now, parent, p);
      AdvancesOnwards(db, db1, Saved(db1, id, r.(status := Done), now), id, parent, p);
    }
  }

  /**
   How a child whose call raises is left: in error without a release or download, and pending when
   its import fails or its parent has been pruned meanwhile.
   */
  function FailureStatuses(outcome: ChildOutcome): (s: set<Status>)
    ensures s <= {Error, Pending} && s != {}
  {
    match outcome
    case ReleaseNotFound => {Error}
    case DownloadFails => {Error, Pending}
    case ImportFails => {Pending}
    case Installs => {Pending}
  }

  /**
   What installing one child does: it ends as done when the call returns and as its failure leaves it
   when it raises, the parent only ever hears of this step, and no other task's row changes.
   */
  lemma ChildInstallAdvances(db: Db, id: nat, parent: nat, step: nat, total: nat, outcome: ChildOutcome, now: int)
    requires id < db.nextId && parent < db.nextId && id != parent
    ensures var (db', ok) := ChildInstalled(db, id, parent, step, total, outcome, now);
            && Advances(db, db', id, parent, StepProgress(step, total))
            && HasStatus(db', id, if ok then {Done} else FailureStatuses(outcome))
            && (ok ==> outcome == Installs)
  {
    hide Advances, ParentStep, Saved, Imported, ChildFinished;
    var p := StepProgress(step, total);
    if id !in db.rows {
      NothingAdvances(db, id, parent, p);
      return;
    }
    var running := db.rows[id].(status := Pending);
    var linked := parent in db.rows;
    var db1, r := Saved(db, id, running, now), Remembered(running);
    ChildSaved(db, id, running, now, parent, p);
    if outcome == ReleaseNotFound {
      ChildSaved(db1, id, r.(status := Error), now, parent, p);
      AdvancesOnwards(db, db1, Saved(db1, id, r.(status := Error), now), id, parent, p);
      return;
    }
    var (db2, ok) := if linked then ParentStep(db1, parent, step, total, now) else (db1, true);
    LinkedStepAdvances(db1, linked, id, parent, step, total, now);
    AdvancesOnwards(db, db1, db2, id, parent, p);
    if !ok {
      return;
    }
    if outcome == DownloadFails {
      ChildSaved(db2, id, r.(status := Error), now, parent, p);
      AdvancesOnwards(db, db2, Saved(db2, id, r.(status := Error), now), id, parent, p);
      return;
    }
    AdvancesNext(db, db2, id, parent, p);
    ImportedAdvances(db2, outcome == ImportFails, now, id, parent, p);
    var db3 := Imported(db2, outcome == ImportFails, now);
    AdvancesOnwards(db, db2, db3, id, parent, p);
    if outcome != ImportFails {
      FinishAdvances(db3, id, r, parent, linked, step, total, now);
      AdvancesOnwards(db, db3, ChildFinished(db3, id, r, parent, linked, step, total, now).0, id, parent, p);
    }
  }

  lemma AdvancesNext(db: Db, db': Db, id: nat, parent: nat, p: Progress)
    requires Advances(db, db', id, parent, p)
    ensures db.nextId <= db'.nextId
  {
  }

  // ----- All children

  /** Child j of those created from first on has one of the statuses, if its row is still stored. */
  ghost predicate ChildHas(db: Db, first: nat, j: nat, statuses: set<Status>) {
    HasStatus(db, first + j, statuses)
  }

  /** The children before i are done, and those from i on have the given status. */
  ghost predicate DoneBefore(db: Db, first: nat, n: nat, i: nat, rest: Status) {
    && (forall j: nat | j < i :: ChildHas(db, first, j, {Done}))
    && (forall j: nat | i <= j < n :: ChildHas(db, first, j, {rest}))
  }

  /** Child f failed: those before it are done, those after it are cancelled. */
  ghost predicate FailedAt(db: Db, first: nat, outcomes: seq<ChildOutcome>, f: nat) {
    var n := |outcomes|;
    && f < n
    && (forall j: nat | j < f :: ChildHas(db, first, j, {Done}))
    && ChildHas(db, first, f, FailureStatuses(outcomes[f]))
    && (forall j: nat | f < j < n :: ChildHas(db, first, j, {Canceled}))
  }

  /** From position from on, writes to the parent report rising progress of the given total, at most top. */
  ghost predicate Climbs(log: seq<Write>, from: nat, parent: nat, total: nat, top: nat) {
    && (forall a | from <= a < |log| && log[a].id == parent :: IsStep(log[a].row, total, top))
    && (forall a, b | from <= a < b < |log| && log[a].id == parent && log[b].id == parent :: NoLater(log[a].row, log[b].row))
  }

  ghost predicate IsStep(r: Row, total: nat, top: nat) {
    r.progress.Some? && r.progress.value.total == total && r.progress.value.current <= top
  }

  ghost predicate NoLater(r: Row, s: Row) {
    r.progress.Some? && s.progress.Some? && r.progress.value.current <= s.progress.value.current
  }

  lemma ClimbsFurther(log: seq<Write>, log': seq<Write>, from: nat, parent: nat, total: nat, top: nat, p: Progress)
    requires Climbs(log, from, parent, total, top) && from <= |log|
    requires Extends(log, log', parent, p) && top <= p.current && p.total == total
    ensures Climbs(log', from, parent, total, p.current)
  {
    forall a | from <= a < |log'| && log'[a].id == parent
      ensures IsStep(log'[a].row, total, p.current)
    {
      assert a < |log| ==> log'[a] == log[a] && IsStep(log[a].row, total, top);
    }
    forall a, b | from <= a < b < |log'| && log'[a].id == parent && log'[b].id == parent
      ensures NoLater(log'[a].row, log'[b].row)
    {
      assert a < |log| ==> log'[a] == log[a] && IsStep(log[a].row, total, top);
      assert b < |log| ==> log'[b] == log[b] && NoLater(log[a].row, log[b].row);
    }
  }

  /** What the loop over the children is known to keep. */
  ghost predicate Installing(db: Db, first: nat, parent: nat, n: nat, i: nat, total: nat, from: nat, status: Status) {
    && parent < first && first + n <= db.nextId && i <= n <= total && from <= |db.log|
    && HasStatus(db, parent, {status})
    && Climbs(db.log, from, parent, total, i)
  }

  lemma OneChildInstalled(db: Db, first: nat, parent: nat, outcomes: seq<ChildOutcome>, i: nat, total: nat, now: int, from: nat, status: Status)
    requires i < |outcomes|
    requires Installing(db, first, parent, |outcomes|, i, total, from, status)
    requires DoneBefore(db, first, |outcomes|, i, Init)
    ensures var n := |outcomes|;
            var (db', ok) := ChildInstalled(db, first + i, parent, i + 1, total, outcomes[i], now);
            && Installing(db', first, parent, n, i + 1, total, from, status)
            && (forall j: nat | j < i :: ChildHas(db', first, j, {Done}))
            && ChildHas(db', first, i, if ok then {Done} else FailureStatuses(outcomes[i]))
            && (forall j: nat | i < j < n :: ChildHas(db', first, j, {Init}))
  {
    hide ChildInstalled, Climbs, Extends;
    var n := |outcomes|;
    var (db', ok) := ChildInstalled(db, first + i, parent, i + 1, total, outcomes[i], now);
    ChildInstallAdvances(db, first + i, parent, i + 1, total, outcomes[i], now);
    assert db.log <= db'.log by {
      ExtendsPrefix(db.log, db'.log, parent, StepProgress(i + 1, total));
    }
    ClimbsFurther(db.log, db'.log, from, parent, total, i, StepProgress(i + 1, total));
    forall j: nat | j < i
      ensures ChildHas(db', first, j, {Done})
    {
      assert ChildHas(db, first, j, {Done});
    }
    assert forall j: nat | i <= j < n :: ChildHas(db, first, j, {Init});
    forall j: nat | i < j < n
      ensures ChildHas(db', first, j, {Init})
    {
      assert ChildHas(db, first, j, {Init});
    }
  }

  lemma ExtendsPrefix(log: seq<Write>, log': seq<Write>, parent: nat, p: Progress)
    requires Extends(log, log', parent, p)
    ensures log <= log'
  {
  }

  /** After the loop: all children done, or one failed with those before it done and after it cancelled. */
  lemma {:induction false} ChildrenEnd(db: Db, first: nat, parent: nat, outcomes: seq<ChildOutcome>, i: nat, total: nat, now: int, from: nat, status: Status)
    requires i <= |outcomes|
    requires Installing(db, first, parent, |outcomes|, i, total, from, status)
    requires DoneBefore(db, first, |outcomes|, i, Init)
    ensures var n := |outcomes|;
            var (db', ok) := ChildrenInstalled(db, first, parent, outcomes, i, total, now);
            && Installing(db', first, parent, n, n, total, from, status)
            && (if ok then DoneBefore(db', first, n, n, Init) else exists f :: FailedAt(db', first, outcomes, f))
    decreases |outcomes| - i
  {
    if i < |outcomes| {
      hide ChildInstalled, ChildHas, Installing, DoneBefore, FailedAt, StatusUpdated;
      var n := |outcomes|;
      var (db', ok) := ChildInstalled(db, first + i, parent, i + 1, total, outcomes[i], now);
      OneChildInstalled(db, first, parent, outcomes, i, total, now, from, status);
      if ok {
        OneMoreDone(db', first, n, i);
        ChildrenEnd(db', first, parent, outcomes, i + 1, total, now, from, status);
      } else {
        RestCancelled(db', first, parent, outcomes, i, total, from, status);
        assert FailedAt(StatusUpdated(db', first + i + 1, first + n, Canceled), first, outcomes, i);
      }
    } else {
      HigherTop(db.log, from, parent, total, i, |outcomes|);
    }
  }

  lemma OneMoreDone(db: Db, first: nat, n: nat, i: nat)
    requires forall j: nat | j < i :: ChildHas(db, first, j, {Done})
    requires ChildHas(db, first, i, {Done})
    requires forall j: nat | i < j < n :: ChildHas(db, first, j, {Init})
    ensures DoneBefore(db, first, n, i + 1, Init)
  {
    hide ChildHas;
  }

  lemma HigherTop(log: seq<Write>, from: nat, parent: nat, total: nat, top: nat, top': nat)
    requires Climbs(log, from, parent, total, top) && top <= top'
    ensures Climbs(log, from, parent, total, top')
  {
  }

  lemma RestCancelled(db: Db, first: nat, parent: nat, outcomes: seq<ChildOutcome>, f: nat, total: nat, from: nat, status: Status)
    requires f < |outcomes| && Installing(db, first, parent, |outcomes|, f + 1, total, from, status)
    requires forall j: nat | j < f :: ChildHas(db, first, j, {Done})
    requires ChildHas(db, first, f, FailureStatuses(outcomes[f]))
    ensures var n := |outcomes|; var db' := StatusUpdated(db, first + f + 1, first + n, Canceled);
            FailedAt(db', first, outcomes, f) && Installing(db', first, parent, n, n, total, from, status)
  {
    hide FailureStatuses;
    var n := |outcomes|;
    var db' := StatusUpdated(db, first + f + 1, first + n, Canceled);
    hide Climbs;
    HigherTop(db.log, from, parent, total, f + 1, n);
    forall j: nat | j < f
      ensures ChildHas(db', first, j, {Done})
    {
      assert ChildHas(db, first, j, {Done});
    }
    forall j: nat | f < j < n
      ensures ChildHas(db', first, j, {Canceled})
    {
      assert first + f + 1 <= first + j < first + n;
    }
  }

  // ----- Start and end of the package

  lemma {:induction false} ChildrenCreatedAreInit(db: Db, n: nat, now: int, parent: nat, p: Progress)
    requires parent < db.nextId
    ensures var db' := ChildrenCreated(db, n, now);
            && db'.nextId == db.nextId + n
            && DoneBefore(db', db.nextId, n, 0, Init)
            && HasStatus(db', parent, if parent in db.rows then {db.rows[parent].status} else {})
    decreases n
  {
    if n > 0 {
      ChildrenCreatedAreInit(db, n - 1, now, parent, p);
      var db1 := ChildrenCreated(db, n - 1, now);
      var id, r := db1.nextId, NewTask(CHILD_TYPE);
      var db2 := Inserted(db1, r, now);
      var db3 := Saved(db2, id, r.(createdAt := now), now);
      hide Saved, Inserted, Extends;
      NewerInserted(db1, r, now, id, parent, p);
      NewerSaved(db2, id, r.(createdAt := now), now, id, parent, p);
      ChildSaved(db2, id, r.(createdAt := now), now, parent, p);
      forall j: nat | j < n
        ensures ChildHas(db3, db.nextId, j, {Init})
      {
        if j < n - 1 {
          assert ChildHas(db1, db.nextId, j, {Init});
        }
      }
    }
  }

  /** A save of the parent: children keep their rows, and the parent's new row is what was written. */
  lemma ParentSaveKeeps(db: Db, parent: nat, r: Row, now: int, first: nat, n: nat, i: nat, rest: Status)
    requires parent < first && DoneBefore(db, first, n, i, rest)
    ensures var db' := Saved(db, parent, r, now);
            && DoneBefore(db', first, n, i, rest) && db'.nextId == db.nextId
            && HasStatus(db', parent, {r.status})
            && db'.log == db.log + [Write(parent, Written(db, parent, r, now))]
  {
    hide Pruned;
    PrunedKeeps(db.rows[parent := Written(db, parent, r, now)]);
    var db' := Saved(db, parent, r, now);
    forall j: nat | j < i
      ensures ChildHas(db', first, j, {Done})
    {
      assert ChildHas(db, first, j, {Done});
    }
    forall j: nat | i <= j < n
      ensures ChildHas(db', first, j, {rest})
    {
      assert ChildHas(db, first, j, {rest});
    }
  }

  /** The parent's writes so far climb, and so does one more of at least the same progress. */
  lemma ParentWriteClimbs(log: seq<Write>, from: nat, parent: nat, total: nat, top: nat, r: Row)
    requires Climbs(log, from, parent, total, top) && from <= |log|
    requires r.progress.Some? && top <= r.progress.value.current && r.progress.value.total == total
    ensures Climbs(log + [Write(parent, r)], from, parent, total, r.progress.value.current)
  {
    ClimbsFurther(log, log + [Write(parent, r)], from, parent, total, top, r.progress.value);
  }

  /** The parent and its children while the parent's own saves run, progress standing at step. */
  ghost predicate Finishing(db: Db, r: Row, first: nat, parent: nat, n: nat, step: nat, total: nat, from: nat) {
    && parent < first && from <= |db.log|
    && DoneBefore(db, first, n, n, Init)
    && r.progress.Some? && r.progress.value.current == step && r.progress.value.total == total
    && Climbs(db.log, from, parent, total, step)
  }

  lemma ParentReports(db: Db, r: Row, first: nat, parent: nat, n: nat, top: nat, p: Progress, now: int, from: nat)
    requires parent < first && from <= |db.log| && DoneBefore(db, first, n, n, Init)
    requires Climbs(db.log, from, parent, p.total, top) && top <= p.current
    ensures var (db', r') := ParentSaved(db, parent, r, p, now);
            Finishing(db', r', first, parent, n, p.current, p.total, from)
  {
    hide Climbs, DoneBefore, Saved;
    var r1 := r.(progress := Some(p));
    ParentSaveKeeps(db, parent, r1, now, first, n, n, Init);
    ParentWriteClimbs(db.log, from, parent, p.total, top, Written(db, parent, r1, now));
  }

  lemma {:induction false} ActionsReport(db: Db, r: Row, first: nat, parent: nat, n: nat, step: nat, total: nat, now: int, from: nat)
    requires step <= total && Finishing(db, r, first, parent, n, step, total, from)
    ensures var (db', r') := ActionsRun(db, parent, r, step, total, now);
            Finishing(db', r', first, parent, n, total, total, from)
    decreases total - step
  {
    if step < total {
      hide Finishing, ParentSaved;
      FinishingFacts(db, r, first, parent, n, step, total, from);
      ParentReports(db, r, first, parent, n, step, StepProgress(step + 1, total), now, from);
      var (db', r') := ParentSaved(db, parent, r, StepProgress(step + 1, total), now);
      ActionsReport(db', r', first, parent, n, step + 1, total, now, from);
    }
  }

  lemma FinishingFacts(db: Db, r: Row, first: nat, parent: nat, n: nat, step: nat, total: nat, from: nat)
    requires Finishing(db, r, first, parent, n, step, total, from)
    ensures parent < first && from <= |db.log| && DoneBefore(db, first, n, n, Init) && Climbs(db.log, from, parent, total, step)
  {
  }

  /** The clean end: children stay done, the parent is done, and its progress reaches the total. */
  lemma PackageFinishedClean(db: Db, r: Row, first: nat, parent: nat, deps: nat, actions: nat, now: int, from: nat)
    requires parent < first && from <= |db.log| && DoneBefore(db, first, deps, deps, Init)
    requires Climbs(db.log, from, parent, deps + actions, deps)
    ensures var db' := PackageFinished(db, parent, r, deps, actions, now);
            && DoneBefore(db', first, deps, deps, Init) && HasStatus(db', parent, {Done})
            && Climbs(db'.log, from, parent, deps + actions, deps + actions)
            && |db'.log| > from && EndsWith(db'.log, parent, deps + actions)
  {
    hide DoneBefore, Climbs, ParentSaved, Saved, ActionsRun;
    var total := deps + actions;
    ParentReports(db, r, first, parent, deps, deps, Progress(deps, total, 100), now, from);
    var (db1, r1) := ParentSaved(db, parent, r, Progress(deps, total, 100), now);
    var (db2, r2) := if actions == 0 then (db1, r1)
                     else
                       var (d, s) := ParentSaved(db1, parent, r1, StepProgress(deps, total), now);
                       ActionsRun(d, parent, s, deps, total, now);
    if actions > 0 {
      ParentReports(db1, r1, first, parent, deps, deps, StepProgress(deps, total), now, from);
      var (d, s) := ParentSaved(db1, parent, r1, StepProgress(deps, total), now);
      ActionsReport(d, s, first, parent, deps, deps, total, now, from);
    }
    var r3 := r2.(status := Done);
    ParentSaveKeeps(db2, parent, r3, now, first, deps, deps, Init);
    ParentWriteClimbs(db2.log, from, parent, total, total, Written(db2, parent, r3, now));
  }

  /** The last write is the parent's, done and at the given progress. */
  ghost predicate EndsWith(log: seq<Write>, parent: nat, current: nat) {
    && log != []
    && var last := log[|log| - 1];
       last.id == parent && last.row.status == Done && last.row.progress.Some? && last.row.progress.value.current == current
  }

  /** The start: every child stored is initial, and the run's first report is 0. */
  lemma PackageStartedClean(db: Db, parent: nat, deps: nat, actions: nat, now: int)
    requires parent in db.rows && parent < db.nextId
    ensures var s := PackageStarted(db, parent, deps, actions, now);
            && |s.log| > 0
            && Installing(s, db.nextId, parent, deps, 0, deps + actions, |s.log| - 1, db.rows[parent].status)
            && DoneBefore(s, db.nextId, deps, 0, Init)
  {
    hide DoneBefore, Climbs, Saved;
    var r, total := db.rows[parent], deps + actions;
    var db0 := Saved(db, parent, r, now);
    NoChildrenYet(db, db.nextId);
    ParentSaveKeeps(db, parent, r, now, db.nextId, 0, 0, Init);
    ChildrenCreatedAreInit(db0, deps, now, parent, Progress(0, total, 0));
    var db1 := ChildrenCreated(db0, deps, now);
    var r1 := Remembered(r).(progress := Some(Progress(0, total, 0)));
    ParentSaveKeeps(db1, parent, r1, now, db.nextId, deps, 0, Init);
    NothingClimbs(db1.log, parent, total);
    ParentWriteClimbs(db1.log, |db1.log|, parent, total, 0, Written(db1, parent, r1, now));
  }

  lemma NoChildrenYet(db: Db, first: nat)
    ensures DoneBefore(db, first, 0, 0, Init)
  {
  }

  lemma NothingClimbs(log: seq<Write>, parent: nat, total: nat)
    ensures Climbs(log, |log|, parent, total, 0)
  {
  }

  /**
   A package run on any table, pruning included. When it returns, every child row still stored is
   done and the parent is done at full progress. When a child's install raises, the children before
   it are done, it is in error or pending, and all after it are cancelled, so none stays initial.
   Either way the parent's progress never decreases and never exceeds its total.
   */
  lemma PackageRun(db: Db, parent: nat, outcomes: seq<ChildOutcome>, actions: nat, now: int)
    requires parent in db.rows && parent < db.nextId
    requires parent in PackageStarted(db, parent, |outcomes|, actions, now).rows
    ensures var first, n, total := db.nextId, |outcomes|, |outcomes| + actions;
            var from := |PackageStarted(db, parent, n, actions, now).log| - 1;
            var (db', ok) := PackageInstalled(db, parent, true, outcomes, actions, now);
            && Climbs(db'.log, from, parent, total, total)
            && (if ok then
                  DoneBefore(db', first, n, n, Init) && HasStatus(db', parent, {Done}) && EndsWith(db'.log, parent, total)
                else
                  (exists f :: FailedAt(db', first, outcomes, f)) && HasStatus(db', parent, {db.rows[parent].status}))
  {
    hide DoneBefore, Climbs, FailedAt, PackageStarted, PackageFinished, ChildrenInstalled, EndsWith;
    var first, n, total := db.nextId, |outcomes|, |outcomes| + actions;
    var started := PackageStarted(db, parent, n, actions, now);
    var from := |started.log| - 1;
    PackageStartedClean(db, parent, n, actions, now);
    ChildrenEnd(started, first, parent, outcomes, 0, total, now, from, db.rows[parent].status);
    var (db1, ok) := ChildrenInstalled(started, first, parent, outcomes, 0, total, now);
    if ok {
      PackageFinishedClean(db1, started.rows[parent], first, parent, n, actions, now, from);
    } else {
      HigherTop(db1.log, from, parent, total, n, total);
    }
  }

  /**
   A package without a release: the call raises, no task is created, the parent is in error with its
   other fields as they were, and no other row changes; within the limit none is pruned either.
   */
  lemma NoRelease(db: Db, parent: nat, outcomes: seq<ChildOutcome>, actions: nat, now: int)
    requires parent in db.rows
    ensures var (db', ok) := PackageInstalled(db, parent, false, outcomes, actions, now);
            var r := db.rows[parent];
            var failed := Row(r.kind, Error, r.ttl, r.createdAt, r.expiryAt, r.notes, r.progress);
            && !ok && db'.nextId == db.nextId
            && db'.log == db.log + [Write(parent, failed)]
            && (forall id | id in db'.rows :: id in db.rows && db'.rows[id] == if id == parent then failed else db.rows[id])
            && (|Counted(db.rows)| <= LIMIT ==> db'.rows.Keys == db.rows.Keys)
  {
    hide Pruned, Counted;
    var r := db.rows[parent].(status := Error);
    PrunedKeeps(db.rows[parent := r]);
    if |Counted(db.rows)| <= LIMIT {
      KindKept(db.rows, parent, r);
    }
  }

  /** A parent that does not exist: nothing happens. */
  lemma NoParent(db: Db, parent: nat, releaseFound: bool, outcomes: seq<ChildOutcome>, actions: nat, now: int)
    requires parent !in db.rows
    ensures PackageInstalled(db, parent, releaseFound, outcomes, actions, now) == (db, false)
  {
  }

  /**
   A parent pruned by its own children's creation stops the run before any child, and the
   transaction takes everything back: no child has a row, and pruned rows are there again.
   */
  lemma ParentLostAtStart(db: Db, parent: nat, outcomes: seq<ChildOutcome>, actions: nat, now: int)
    requires parent in db.rows && parent < db.nextId
    requires parent !in PackageStarted(db, parent, |outcomes|, actions, now).rows
    ensures PackageInstalled(db, parent, true, outcomes, actions, now)
            == (Db(db.rows, db.nextId + |outcomes|, db.log), false)
  {
    var r := db.rows[parent];
    ChildrenCreatedAreInit(Saved(db, parent, r, now), |outcomes|, now, parent, Progress(0, 0, 0));
  }

  /** The history of a table in which nothing was pruned yet. */
  function HistoryOf(db: Db): History {
    History(db, map id | id in db.rows :: IsReport(db.rows[id]))
  }

  lemma HistoryStarts(db: Db)
    requires |Counted(db.rows)| <= LIMIT && forall id | id in db.rows :: id < db.nextId
    ensures KeepsMostRecent(HistoryOf(db)) && EverCounted(HistoryOf(db)) == Counted(db.rows)
  {
    assert EverCounted(HistoryOf(db)) == Counted(db.rows);
  }

  lemma ResaveKeeps(h: History, id: nat, r: Row, now: int) returns (h': History)
    requires KeepsMostRecent(h) && Allowed(h, Resave(id, r, now))
    ensures h' == h.(db := Saved(h.db, id, r, now)) && KeepsMostRecent(h') && EverCounted(h') == EverCounted(h)
  {
    h' := After(h, Resave(id, r, now));
    StepKeepsMostRecent(h, Resave(id, r, now));
  }

  lemma {:induction false} ChildrenKeepMostRecent(h: History, n: nat, now: int) returns (h': History)
    requires KeepsMostRecent(h)
    ensures KeepsMostRecent(h') && h'.db == ChildrenCreated(h.db, n, now) && h'.db.nextId == h.db.nextId + n
    ensures forall id | id in h.created :: id in h'.created && h'.created[id] == h.created[id]
    ensures forall id :: id in EverCounted(h') <==> id in EverCounted(h) || h.db.nextId <= id < h.db.nextId + n
    decreases n
  {
    hide KeepsMostRecent, Saved, Pruned, EverCounted;
    if n == 0 {
      h' := h;
    } else {
      var m := ChildrenKeepMostRecent(h, n - 1, now);
      var r := NewTask(CHILD_TYPE);
      var id := m.db.nextId;
      StepKeepsMostRecent(m, Create(r, now));
      MostRecentConsistent(m);
      EverCountedAfter(m, Create(r, now));
      h' := ResaveKeeps(After(m, Create(r, now)), id, r.(createdAt := now), now);
      SavedKeepsNextId(After(m, Create(r, now)).db, id, r.(createdAt := now), now);
    }
  }

  lemma MostRecentConsistent(h: History)
    requires KeepsMostRecent(h)
    ensures Consistent(h)
  {
  }

  function Above(s: set<nat>, p: nat): set<nat> {
    set x | x in s && p < x
  }

  /** A member is among the largest exactly when fewer than LIMIT members are above it. */
  lemma AmongLargest(kept: set<nat>, all: set<nat>, p: nat)
    requires AreLargest(kept, all) && p in all
    ensures p in kept <==> |Above(all, p)| < LIMIT
  {
    if p in kept {
      assert Above(all, p) + {p} <= kept;
      SubsetSmaller(Above(all, p) + {p}, kept);
    } else {
      assert kept <= Above(all, p);
      SubsetSmaller(kept, Above(all, p));
    }
  }

  lemma {:induction false} SubsetSmaller(s: set<nat>, t: set<nat>)
    requires s <= t
    ensures |s| <= |t|
  {
    assert t == s + (t - s);
  }

  lemma {:induction false} AboveWithNewer(s: set<nat>, t: set<nat>, p: nat, from: nat, n: nat)
    requires p < from && forall x | x in s :: x < from
    requires forall x :: x in t <==> x in s || from <= x < from + n
    ensures |Above(t, p)| == |Above(s, p)| + n
    decreases n
  {
    if n == 0 {
      assert t == s;
    } else {
      var last := from + n - 1;
      AboveWithNewer(s, t - {last}, p, from, n - 1);
      assert Above(t, p) == Above(t - {last}, p) + {last};
    }
  }

  /**
   Which parents survive the start: reports, and those that leave room for their children above
   them. It can be read off the table before the run.
   */
  lemma ParentSurvivesExactly(db: Db, parent: nat, n: nat, actions: nat, now: int)
    requires parent in db.rows && |Counted(db.rows)| <= LIMIT && forall id | id in db.rows :: id < db.nextId
    ensures parent in PackageStarted(db, parent, n, actions, now).rows
            <==> IsReport(db.rows[parent]) || |Above(Counted(db.rows), parent)| + n < LIMIT
  {
    hide Saved, Pruned, KeepsMostRecent, ChildrenCreated, AreLargest;
    var r := db.rows[parent];
    HistoryStarts(db);
    var h0 := ResaveKeeps(HistoryOf(db), parent, r, now);
    var h1 := ChildrenKeepMostRecent(h0, n, now);
    var h2 := ResaveKeeps(h1, parent, Remembered(r).(progress := Some(Progress(0, n + actions, 0))), now);
    SavedKeepsNextId(db, parent, r, now);
    assert h2.db == PackageStarted(db, parent, n, actions, now);
    SurvivesExactly(h2, parent);
    if !IsReport(r) {
      AboveWithNewer(Counted(db.rows), EverCounted(h2), parent, db.nextId, n);
    }
  }

  lemma SavedKeepsNextId(db: Db, id: nat, r: Row, now: int)
    ensures Saved(db, id, r, now).nextId == db.nextId
  {
  }

  lemma SurvivesExactly(h: History, p: nat)
    requires KeepsMostRecent(h) && p in h.created
    ensures p in h.db.rows <==> h.created[p] || |Above(EverCounted(h), p)| < LIMIT
  {
    if !h.created[p] {
      AmongLargest(Counted(h.db.rows), EverCounted(h), p);
    }
  }

  // ----- A table with room: nothing is pruned, so every row of the run is there at its end

  /** At least k more tasks can be created before a save prunes, and new ids are unused. */
  ghost predicate Room(db: Db, k: nat) {
    |Counted(db.rows)| + k <= LIMIT && forall id | id in db.rows :: id < db.nextId
  }

  /** No row has gone, and none has changed its type. */
  ghost predicate Keeps(db: Db, db': Db) {
    && db.nextId <= db'.nextId
    && forall id | id in db.rows :: id in db'.rows && db'.rows[id].kind == db.rows[id].kind
  }

  lemma SavedKeeps(db: Db, id: nat, r: Row, now: int, k: nat)
    requires Room(db, k) && id in db.rows && r.kind == db.rows[id].kind
    ensures Room(Saved(db, id, r, now), k) && Keeps(db, Saved(db, id, r, now))
  {
    KindKept(db.rows, id, r);
  }

  lemma InsertedKeeps(db: Db, r: Row, now: int, k: nat)
    requires Room(db, k + 1)
    ensures var db' := Inserted(db, r, now);
            Room(db', k) && Keeps(db, db') && db.nextId in db'.rows && db'.rows[db.nextId] == r.(createdAt := now)
  {
    InsertWithinLimit(db.rows, db.nextId, r.(createdAt := now));
    InsertCounts(db.rows, db.nextId, r.(createdAt := now));
  }

  lemma ParentStepKeeps(db: Db, parent: nat, step: nat, total: nat, now: int, k: nat)
    requires Room(db, k) && parent in db.rows
    ensures var (db', ok) := ParentStep(db, parent, step, total, now);
            ok && Room(db', k) && Keeps(db, db')
  {
    SavedKeeps(db, parent, db.rows[parent].(progress := Some(StepProgress(step, total))), now, k);
  }

  lemma ImportedKeeps(db: Db, fails: bool, now: int, k: nat)
    requires Room(db, k + 1)
    ensures Room(Imported(db, fails, now), k) && Keeps(db, Imported(db, fails, now))
  {
    hide Saved, Inserted, Room;
    var n, r := db.nextId, NewTask(IMPORT_TYPE).(createdAt := now);
    var db1 := Inserted(db, NewTask(IMPORT_TYPE), now);
    var db2 := Saved(db1, n, r, now);
    var db3 := Saved(db2, n, r.(status := Pending), now);
    InsertedKeeps(db, NewTask(IMPORT_TYPE), now, k);
    SavedKeeps(db1, n, r, now, k);
    SavedKeeps(db2, n, r.(status := Pending), now, k);
    SavedKeeps(db3, n, r.(status := Done), now, k);
  }

  /** With room, a child's install returns normally exactly when its remote calls do. */
  lemma ChildInstalledKeeps(db: Db, id: nat, parent: nat, step: nat, total: nat, outcome: ChildOutcome, now: int, k: nat)
    requires Room(db, k + 1) && id in db.rows && parent in db.rows
    ensures var (db', ok) := ChildInstalled(db, id, parent, step, total, outcome, now);
            && Room(db', k) && Keeps(db, db') && (ok <==> outcome == Installs)
  {
    hide Saved, ParentStep, Imported, Room;
    MoreRoom(db, k);
    var running := db.rows[id].(status := Pending);
    var db1, r := Saved(db, id, running, now), Remembered(running);
    SavedKeeps(db, id, running, now, k);
    SavedKeeps(db, id, running, now, k + 1);
    var db2 := ParentStep(db1, parent, step, total, now).0;
    if outcome == ReleaseNotFound {
      SavedKeeps(db1, id, r.(status := Error), now, k);
    } else {
      ParentStepKeeps(db1, parent, step, total, now, k);
      ParentStepKeeps(db1, parent, step, total, now, k + 1);
      if outcome == DownloadFails {
        SavedKeeps(db2, id, r.(status := Error), now, k);
      } else {
        ImportedKeeps(db2, outcome == ImportFails, now, k);
        if outcome == Installs {
          var db3 := Imported(db2, false, now);
          ParentStepKeeps(db3, parent, step, total, now, k);
          var db4 := ParentStep(db3, parent, step, total, now).0;
          SavedKeeps(db4, id, r.(status := Done), now, k);
        }
      }
    }
  }

  lemma MoreRoom(db: Db, k: nat)
    requires Room(db, k + 1)
    ensures Room(db, k)
  {
  }

  /** The first child that does not install, or the number of children. */
  function FirstFailure(outcomes: seq<ChildOutcome>, i: nat): (f: nat)
    requires i <= |outcomes|
    ensures i <= f <= |outcomes|
    decreases |outcomes| - i
  {
    if i == |outcomes| || outcomes[i] != Installs then i else FirstFailure(outcomes, i + 1)
  }

  lemma {:induction false} FirstFailureMeaning(outcomes: seq<ChildOutcome>, i: nat)
    requires i <= |outcomes|
    ensures var f := FirstFailure(outcomes, i);
            && (forall j | i <= j < f :: outcomes[j] == Installs)
            && (f < |outcomes| ==> outcomes[f] != Installs)
    decreases |outcomes| - i
  {
    if i < |outcomes| && outcomes[i] == Installs {
      FirstFailureMeaning(outcomes, i + 1);
    }
  }

  /** The parent and all n children have rows. */
  ghost predicate Stored(db: Db, first: nat, parent: nat, n: nat) {
    parent in db.rows && forall id: nat | first <= id < first + n :: id in db.rows
  }

  lemma StoredOnwards(db: Db, db': Db, first: nat, parent: nat, n: nat)
    requires Stored(db, first, parent, n) && Keeps(db, db')
    ensures Stored(db', first, parent, n)
  {
  }

  /** How the loop over the children ends: f is where it stopped. */
  ghost predicate LoopEnds(db: Db, db': Db, ok: bool, first: nat, n: nat, f: nat) {
    && Keeps(db, db') && (ok <==> f == n)
    && (if ok then Room(db', 0) else ChildHas(db', first, f, {Error, Pending}))
  }

  /** With room, the loop stops at the first child whose remote calls fail, and leaves it in error or pending. */
  lemma {:induction false} ChildrenKept(db: Db, first: nat, parent: nat, outcomes: seq<ChildOutcome>, i: nat, total: nat, now: int)
    requires i <= |outcomes| && Room(db, |outcomes| - i)
    requires parent < first && first + |outcomes| <= db.nextId && Stored(db, first, parent, |outcomes|)
    ensures var (db', ok) := ChildrenInstalled(db, first, parent, outcomes, i, total, now);
            LoopEnds(db, db', ok, first, |outcomes|, FirstFailure(outcomes, i))
    decreases |outcomes| - i
  {
    hide ChildInstalled, StatusUpdated, Room, Keeps, Stored, LoopEnds, Advances, HasStatus;
    if i < |outcomes| {
      var n := |outcomes|;
      var (db', ok) := ChildInstalled(db, first + i, parent, i + 1, total, outcomes[i], now);
      StoredAt(db, first, parent, n, i);
      ChildInstalledKeeps(db, first + i, parent, i + 1, total, outcomes[i], now, n - i - 1);
      StoredOnwards(db, db', first, parent, n);
      if ok {
        KeepsNext(db, db');
        ChildrenKept(db', first, parent, outcomes, i + 1, total, now);
        var (db'', ok') := ChildrenInstalled(db', first, parent, outcomes, i + 1, total, now);
        LoopEndsOnwards(db, db', db'', ok', first, n, FirstFailure(outcomes, i + 1));
      } else {
        ChildInstallAdvances(db, first + i, parent, i + 1, total, outcomes[i], now);
        MoreStatuses(db', first + i, FailureStatuses(outcomes[i]), {Error, Pending});
        LoopFails(db, db', first, n, i);
      }
    } else {
      LoopOver(db, first, i);
    }
  }

  lemma LoopEndsOnwards(db: Db, db': Db, db'': Db, ok: bool, first: nat, n: nat, f: nat)
    requires Keeps(db, db') && LoopEnds(db', db'', ok, first, n, f)
    ensures LoopEnds(db, db'', ok, first, n, f)
  {
    hide Room, ChildHas;
  }

  lemma MoreStatuses(db: Db, id: nat, s: set<Status>, t: set<Status>)
    requires HasStatus(db, id, s) && s <= t
    ensures HasStatus(db, id, t)
  {
  }

  lemma LoopFails(db: Db, db': Db, first: nat, n: nat, f: nat)
    requires Keeps(db, db') && f < n && HasStatus(db', first + f, {Error, Pending})
    ensures LoopEnds(db, StatusUpdated(db', first + f + 1, first + n, Canceled), false, first, n, f)
  {
  }

  lemma LoopOver(db: Db, first: nat, n: nat)
    requires Room(db, 0)
    ensures LoopEnds(db, db, true, first, n, n)
  {
  }

  lemma KeepsNext(db: Db, db': Db)
    requires Keeps(db, db')
    ensures db.nextId <= db'.nextId
  {
  }

  lemma StoredAt(db: Db, first: nat, parent: nat, n: nat, i: nat)
    requires Stored(db, first, parent, n) && i < n
    ensures parent in db.rows && first + i in db.rows
  {
  }

  lemma {:induction false} ChildrenCreatedKeep(db: Db, n: nat, now: int, k: nat)
    requires Room(db, n + k)
    ensures var db' := ChildrenCreated(db, n, now);
            && Room(db', k) && Keeps(db, db') && db'.nextId == db.nextId + n
            && forall id: nat | db.nextId <= id < db.nextId + n :: id in db'.rows
    decreases n
  {
    hide Room, Saved, Inserted;
    if n > 0 {
      ChildrenCreatedKeep(db, n - 1, now, k + 1);
      ChildCreatedKeeps(ChildrenCreated(db, n - 1, now), now, k);
    }
  }

  lemma ChildCreatedKeeps(db: Db, now: int, k: nat)
    requires Room(db, k + 1)
    ensures var r := NewTask(CHILD_TYPE);
            var db' := Saved(Inserted(db, r, now), db.nextId, r.(createdAt := now), now);
            Room(db', k) && Keeps(db, db') && db'.nextId == db.nextId + 1 && db.nextId in db'.rows
  {
    hide Room, Pruned;
    var r := NewTask(CHILD_TYPE);
    var db' := Inserted(db, r, now);
    InsertedKeeps(db, r, now, k);
    SavedKeeps(db', db.nextId, r.(createdAt := now), now, k);
  }

  lemma StartKeeps(db: Db, parent: nat, deps: nat, actions: nat, now: int, k: nat)
    requires parent in db.rows && Room(db, deps + k)
    ensures var s := PackageStarted(db, parent, deps, actions, now);
            && Room(s, k) && s.nextId == db.nextId + deps && Stored(s, db.nextId, parent, deps)
  {
    hide Room, Pruned;
    var r := db.rows[parent];
    SavedKeeps(db, parent, r, now, deps + k);
    var db0 := Saved(db, parent, r, now);
    ChildrenCreatedKeep(db0, deps, now, k);
    var db1 := ChildrenCreated(db0, deps, now);
    var r1 := Remembered(r).(progress := Some(Progress(0, deps + actions, 0)));
    SavedKeeps(db1, parent, r1, now, k);
  }

  /** The parent's own saves keep every row. */
  ghost predicate ParentKept(db: Db, parent: nat, r: Row) {
    Room(db, 0) && parent in db.rows && db.rows[parent].kind == r.kind
  }

  lemma ParentSavedKeeps(db: Db, parent: nat, r: Row, p: Progress, now: int)
    requires ParentKept(db, parent, r)
    ensures var (db', r') := ParentSaved(db, parent, r, p, now);
            ParentKept(db', parent, r') && Keeps(db, db')
  {
    SavedKeeps(db, parent, r.(progress := Some(p)), now, 0);
  }

  lemma {:induction false} ActionsKeep(db: Db, parent: nat, r: Row, step: nat, total: nat, now: int)
    requires step <= total && ParentKept(db, parent, r)
    ensures var (db', r') := ActionsRun(db, parent, r, step, total, now);
            ParentKept(db', parent, r') && Keeps(db, db')
    decreases total - step
  {
    if step < total {
      hide ParentSaved, ParentKept;
      ParentSavedKeeps(db, parent, r, StepProgress(step + 1, total), now);
      var (db', r') := ParentSaved(db, parent, r, StepProgress(step + 1, total), now);
      ActionsKeep(db', parent, r', step + 1, total, now);
    }
  }

  lemma FinishKeeps(db: Db, parent: nat, r: Row, deps: nat, actions: nat, now: int)
    requires ParentKept(db, parent, r)
    ensures Keeps(db, PackageFinished(db, parent, r, deps, actions, now))
  {
    hide ParentSaved, Saved, ActionsRun, Room;
    var total := deps + actions;
    ParentSavedKeeps(db, parent, r, Progress(deps, total, 100), now);
    var (db1, r1) := ParentSaved(db, parent, r, Progress(deps, total, 100), now);
    if actions > 0 {
      ParentSavedKeeps(db1, parent, r1, StepProgress(deps, total), now);
      var (db2, r2) := ParentSaved(db1, parent, r1, StepProgress(deps, total), now);
      ActionsKeep(db2, parent, r2, deps, total, now);
      var (db3, r3) := ActionsRun(db2, parent, r2, deps, total, now);
      SavedKeeps(db3, parent, r3.(status := Done), now, 0);
    } else {
      SavedKeeps(db1, parent, r1.(status := Done), now, 0);
    }
  }

  /**
   With room for two tasks a child, a package run returns normally exactly when every child's remote
   calls succeed, every child's row is still there at the end, and the child that failed is the
   first one whose calls did.
   */
  lemma PackageRunWithRoom(db: Db, parent: nat, outcomes: seq<ChildOutcome>, actions: nat, now: int)
    requires parent in db.rows && Room(db, 2 * |outcomes|)
    ensures var first, n := db.nextId, |outcomes|;
            var (db', ok) := PackageInstalled(db, parent, true, outcomes, actions, now);
            && Stored(db', first, parent, n)
            && (ok <==> FirstFailure(outcomes, 0) == n)
            && (if ok then DoneBefore(db', first, n, n, Init) && HasStatus(db', parent, {Done})
                else FirstFailure(outcomes, 0) < n && FailedAt(db', first, outcomes, FirstFailure(outcomes, 0)))
  {
    hide *;
    var first, n, total, f := db.nextId, |outcomes|, |outcomes| + actions, FirstFailure(outcomes, 0);
    StartKeeps(db, parent, n, actions, now, n);
    var started := PackageStarted(db, parent, n, actions, now);
    StoredParent(db, started, first, parent, n);
    PackageRun(db, parent, outcomes, actions, now);
    ChildrenKept(started, first, parent, outcomes, 0, total, now);
    var (db1, ok) := ChildrenInstalled(started, first, parent, outcomes, 0, total, now);
    LoopMeaning(started, db1, ok, first, parent, n, f);
    PackageUnfolds(db, parent, outcomes, actions, now);
    if ok {
      FinishKeeps(db1, parent, started.rows[parent], n, actions, now);
      StoredOnwards(db1, PackageFinished(db1, parent, started.rows[parent], n, actions, now), first, parent, n);
    } else {
      var g :| FailedAt(db1, first, outcomes, g);
      OneFailure(db1, first, parent, outcomes, f, g);
    }
  }

  lemma StoredParent(db: Db, started: Db, first: nat, parent: nat, n: nat)
    requires Stored(started, first, parent, n)
    ensures parent in started.rows
    ensures parent in db.rows && Room(db, 2 * n) ==> parent < db.nextId
  {
  }

  lemma LoopMeaning(db: Db, db': Db, ok: bool, first: nat, parent: nat, n: nat, f: nat)
    requires LoopEnds(db, db', ok, first, n, f) && Stored(db, first, parent, n)
    ensures Stored(db', first, parent, n) && (ok <==> f == n)
    ensures if ok then ParentKept(db', parent, db.rows[parent]) else ChildHas(db', first, f, {Error, Pending})
  {
  }

  lemma PackageUnfolds(db: Db, parent: nat, outcomes: seq<ChildOutcome>, actions: nat, now: int)
    requires parent in db.rows && parent in PackageStarted(db, parent, |outcomes|, actions, now).rows
    ensures var started := PackageStarted(db, parent, |outcomes|, actions, now);
            var (db', ok) := ChildrenInstalled(started, db.nextId, parent, outcomes, 0, |outcomes| + actions, now);
            PackageInstalled(db, parent, true, outcomes, actions, now)
            == if ok then (PackageFinished(db', parent, started.rows[parent], |outcomes|, actions, now), true) else (db', false)
  {
  }

  /** Among stored children only one place can be the failure. */
  lemma OneFailure(db: Db, first: nat, parent: nat, outcomes: seq<ChildOutcome>, f: nat, g: nat)
    requires Stored(db, first, parent, |outcomes|) && f < |outcomes|
    requires ChildHas(db, first, f, {Error, Pending}) && FailedAt(db, first, outcomes, g)
    ensures f == g
  {
    assert first + f in db.rows;
    assert f < g ==> ChildHas(db, first, f, {Done});
    assert g < f ==> ChildHas(db, first, f, {Canceled});
  }
}
