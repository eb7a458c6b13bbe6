/** Background tasks: what `CeleryTask.save` keeps, when a task expires, and what saving prunes. */
module TaskStore {

  datatype Option<+T> = None | Some(value: T)

  datatype Status = Init | Pending | Done | Error | Timeout | Canceled | TransactionsAborted | RequestSent | WaitResponse

  const LIMIT: nat := 3000

  const REPORT_TYPES: set<string> := {"calculate_balance_report", "calculate_pl_report"}

  const TTL_NOTE := " Task was cancelled by TTL \n"

  /** The numbers of a progress object. */
  datatype Progress = Progress(current: nat, total: nat, percent: nat)

  /** A stored task; times are seconds. */
  datatype Row = Row(kind: Option<string>, status: Status, ttl: nat, createdAt: int, expiryAt: Option<int>,
                     notes: Option<string>, progress: Option<Progress>)

  type Rows = map<nat, Row>

  predicate IsReport(r: Row) {
    r.kind.Some? && r.kind.value in REPORT_TYPES
  }

  /** The ids that count towards the limit. */
  function Counted(rows: Rows): set<nat> {
    set id | id in rows && !IsReport(rows[id])
  }

  function Least(s: set<nat>): (m: nat)
    requires s != {}
    ensures m in s && forall x | x in s :: m <= x
  {
    LeastExists(s);
    var m :| m in s && forall x | x in s :: m <= x;
    m
  }

  lemma {:induction false} LeastExists(s: set<nat>)
    requires s != {}
    ensures exists m :: m in s && forall x | x in s :: m <= x
    decreases |s|
  {
    var y :| y in s;
    var rest := s - {y};
    if rest == {} {
      assert s == {y};
    } else {
      LeastExists(rest);
      var m :| m in rest && forall x | x in rest :: m <= x;
      var least := if y < m then y else m;
      assert forall x | x in s :: x == y || x in rest;
      assert least in s && forall x | x in s :: least <= x;
    }
  }

  /** Over the limit, a save deletes the counted task with the smallest id. */
  function Pruned(rows: Rows): Rows {
    if |Counted(rows)| > LIMIT then rows - {Least(Counted(rows))} else rows
  }

  /** The expiry a task has in memory after a save. */
  function ExpiryAfterSave(r: Row): Option<int> {
    if r.ttl != 0 && r.expiryAt == None then Some(r.createdAt + r.ttl) else r.expiryAt
  }

  /** One row as a save wrote it. */
  datatype Write = Write(id: nat, row: Row)

  /** The table's rows, its id sequence and everything written so far. */
  datatype Db = Db(rows: Rows, nextId: nat, log: seq<Write>)

  /** The row that saving a task under an id writes: without a stored row it is inserted anew, created now. */
  function Written(db: Db, id: nat, r: Row, now: int): Row {
    if id in db.rows then r else r.(createdAt := now)
  }

  function Saved(db: Db, id: nat, r: Row, now: int): Db {
    var w := Written(db, id, r, now);
    Db(Pruned(db.rows[id := w]), db.nextId, db.log + [Write(id, w)])
  }

  function Inserted(db: Db, r: Row, now: int): Db {
    var w := r.(createdAt := now);
    Db(Pruned(db.rows[db.nextId := w]), db.nextId + 1, db.log + [Write(db.nextId, w)])
  }

  /** A task's fields in memory once the given row was written. */
  function Remembered(written: Row): Row {
    written.(expiryAt := ExpiryAfterSave(written))
  }

  /** The table of tasks and its id sequence. */
  class Table {
    var rows: Rows
    var nextId: nat
    ghost var log: seq<Write>

    constructor ()
      ensures State() == Db(map[], 0, [])
    {
      rows, nextId, log := map[], 0, [];
    }

    ghost function State(): Db
      reads this
    {
      Db(rows, nextId, log)
    }
  }

  /** A task in memory; None is the id of a task that has not been saved. */
  class Task {
    var id: Option<nat>
    var kind: Option<string>
    var status: Status
    var ttl: nat
    var createdAt: int
    var expiryAt: Option<int>
    var notes: Option<string>
    var progress: Option<Progress>

    constructor New(kind: Option<string>, ttl: nat)
      ensures id == None && Fields() == Row(kind, Init, ttl, 0, None, None, None)
    {
      id, this.kind, status, this.ttl, createdAt := None, kind, Init, ttl, 0;
      expiryAt, notes, progress := None, None, None;
    }

    constructor Load(id: nat, r: Row)
      ensures this.id == Some(id) && Fields() == r
    {
      this.id, kind, status, ttl, createdAt := Some(id), r.kind, r.status, r.ttl, r.createdAt;
      expiryAt, notes, progress := r.expiryAt, r.notes, r.progress;
    }

    function Fields(): Row
      reads this
    {
      Row(kind, status, ttl, createdAt, expiryAt, notes, progress)
    }

    /**
     `save`. A task without a row is inserted, under its old id if it had one, and stamped as
     created now. The expiry is set only in memory, after the row is written.
     */
    method Save(table: Table, now: int)
      modifies this, table
      ensures old(id) == None ==>
                && id == Some(old(table.nextId))
                && table.State() == Inserted(old(table.State()), old(Fields()), now)
                && Fields() == Remembered(old(Fields()).(createdAt := now))
      ensures old(id) != None ==>
                && id == old(id)
                && table.State() == Saved(old(table.State()), id.value, old(Fields()), now)
                && Fields() == Remembered(Written(old(table.State()), id.value, old(Fields()), now))
    {
      if id == None {
        id := Some(table.nextId);
        table.nextId := table.nextId + 1;
        createdAt := now;
      } else if id.value !in table.rows {
        createdAt := now;
      }
      table.rows := table.rows[id.value := Fields()];
      table.log := table.log + [Write(id.value, Fields())];
      if ttl != 0 && expiryAt == None {
        expiryAt := Some(createdAt + ttl);
      }
      if |Counted(table.rows)| > LIMIT {
        table.rows := table.rows - {Least(Counted(table.rows))};
      }
    }

    /** `cancel`, apart from revoking the broker message. */
    method Cancel(table: Table, now: int)
      requires id.Some?
      modifies this, table
      ensures id == old(id) && status == Canceled
      ensures table.State() == Saved(old(table.State()), id.value, old(Fields()).(status := Canceled), now)
    {
      status := Canceled;
      Save(table, now);
    }

    /** `update_progress`. */
    method UpdateProgress(table: Table, now: int, progress: Progress)
      requires id.Some?
      modifies this, table
      ensures var r := old(Fields()).(progress := Some(progress));
              && id == old(id)
              && table.State() == Saved(old(table.State()), id.value, r, now)
              && Fields() == Remembered(Written(old(table.State()), id.value, r, now))
    {
      this.progress := Some(progress);
      Save(table, now);
    }
  }

  // ----- Expiry

  /** What `auto_cancel_task_by_ttl` selects. */
  predicate IsDue(r: Row, now: int) {
    r.status == Pending && r.expiryAt.Some? && r.expiryAt.value <= now
  }

  function TimedOut(r: Row): Row {
    r.(notes := Some((if r.notes.Some? then r.notes.value else "") + TTL_NOTE), status := Timeout)
  }

  /** The table with every due task timed out, except those still waiting. */
  function Swept(rows: Rows, waiting: set<nat>, now: int): Rows {
    map id | id in rows :: if IsDue(rows[id], now) && id !in waiting then TimedOut(rows[id]) else rows[id]
  }

  lemma SweepStep(rows: Rows, waiting: set<nat>, id: nat, now: int)
    requires id in waiting && id in rows && IsDue(rows[id], now)
    requires |Counted(rows)| <= LIMIT
    ensures var swept := Swept(rows, waiting, now)[id := TimedOut(rows[id])];
            swept == Swept(rows, waiting - {id}, now) && Pruned(swept) == swept
  {
    assert Counted(Swept(rows, waiting - {id}, now)) == Counted(rows);
  }

  /** Each due task, as the query loaded it, is timed out and saved, in the order of the query. */
  function SweptInOrder(db: Db, loaded: Rows, order: seq<nat>, now: int): Db
    requires forall i | 0 <= i < |order| :: order[i] in loaded
  {
    if order == [] then db
    else
      var n := |order| - 1;
      Saved(SweptInOrder(db, loaded, order[..n], now), order[n], TimedOut(loaded[order[n]]), now)
  }

  /** The query lists exactly the due tasks, each once. */
  ghost predicate ListsDue(rows: Rows, order: seq<nat>, now: int) {
    && (forall id :: id in order <==> id in rows && IsDue(rows[id], now))
    && (forall i, j | 0 <= i < j < |order| :: order[i] != order[j])
  }

  /** `auto_cancel_task_by_ttl`, with the pruning of every save. */
  method AutoCancelByTtl(table: Table, order: seq<nat>, now: int)
    requires ListsDue(table.rows, order, now)
    modifies table
    ensures table.State() == SweptInOrder(old(table.State()), old(table.rows), order, now)
  {
    hide Pruned, IsDue, ExpiryAfterSave, TTL_NOTE;
    var loaded := table.rows;
    assert forall i | 0 <= i < |order| :: order[i] in order;
    for i := 0 to |order|
      invariant table.State() == SweptInOrder(old(table.State()), loaded, order[..i], now)
    {
      assert order[..i + 1][..i] == order[..i];
      var task := new Task.Load(order[i], loaded[order[i]]);
      if task.notes == None {
        task.notes := Some("");
      }
      task.notes := Some(task.notes.value + TTL_NOTE);
      task.status := Timeout;
      task.Save(table, now);
    }
    assert order[..|order|] == order;
  }

  /**
   A pending task whose expiry has passed is now in timeout, with a line added to its notes and
   everything else as it was; it is due at no time. Any other task has not changed.
   */
  predicate IsSwept(r: Row, r': Row, now: int) {
    if r.status == Pending && r.expiryAt.Some? && r.expiryAt.value <= now then
      r' == Row(r.kind, Timeout, r.ttl, r.createdAt, r.expiryAt,
                Some((if r.notes.Some? then r.notes.value else "") + " Task was cancelled by TTL \n"), r.progress)
    else r' == r
  }

  lemma SweptMeaning(rows: Rows, now: int)
    ensures Swept(rows, {}, now).Keys == rows.Keys
    ensures forall id | id in rows :: IsSwept(rows[id], Swept(rows, {}, now)[id], now)
  {
  }

  lemma SweptNeverDue(r: Row, r': Row, now: int, clock: int)
    requires IsSwept(r, r', now) && clock <= now
    ensures !IsDue(r', clock)
  {
  }

  /** Within the limit, which every save keeps, exactly the due tasks time out and nothing is pruned, in any order. */
  lemma SweepWithinLimit(db: Db, order: seq<nat>, now: int)
    requires ListsDue(db.rows, order, now) && |Counted(db.rows)| <= LIMIT
    ensures forall i | 0 <= i < |order| :: order[i] in db.rows
    ensures var rows := SweptInOrder(db, db.rows, order, now).rows;
            && rows.Keys == db.rows.Keys
            && forall id | id in db.rows :: IsSwept(db.rows[id], rows[id], now)
  {
    SweptMeaning(db.rows, now);
    hide IsDue, TimedOut, Counted;
    assert forall i | 0 <= i < |order| :: order[i] in order;
    SweepSoFar(db, order, |order|, now);
    assert order[..|order|] == order;
    assert Waiting(order, |order|) == {};
  }

  /** The tasks whose turn has not come. */
  function Waiting(order: seq<nat>, n: nat): set<nat>
    requires n <= |order|
  {
    set id | id in order[n..]
  }

  lemma {:induction false} SweepSoFar(db: Db, order: seq<nat>, n: nat, now: int)
    requires ListsDue(db.rows, order, now) && |Counted(db.rows)| <= LIMIT && n <= |order|
    requires forall i | 0 <= i < |order| :: order[i] in db.rows
    ensures SweptInOrder(db, db.rows, order[..n], now).rows == Swept(db.rows, Waiting(order, n), now)
    decreases n
  {
    hide IsDue, TimedOut, Counted, Pruned;
    if n == 0 {
      assert order[0..] == order;
      NothingSwept(db.rows, order, now);
    } else {
      var id := order[n - 1];
      assert order[..n][..n - 1] == order[..n - 1];
      SweepSoFar(db, order, n - 1, now);
      assert id in order && order[n - 1..] == [id] + order[n..];
      assert id !in order[n..];
      assert Waiting(order, n) == Waiting(order, n - 1) - {id};
      SweepStep(db.rows, Waiting(order, n - 1), id, now);
    }
  }

  lemma NothingSwept(rows: Rows, order: seq<nat>, now: int)
    requires ListsDue(rows, order, now)
    ensures Swept(rows, Waiting(order, 0), now) == rows
  {
    assert order[0..] == order;
  }

  lemma KindKept(rows: Rows, id: nat, r: Row)
    requires id in rows && r.kind == rows[id].kind && |Counted(rows)| <= LIMIT
    ensures Counted(rows[id := r]) == Counted(rows) && Pruned(rows[id := r]) == rows[id := r]
  {
    assert Counted(rows[id := r]) == Counted(rows);
  }

  /** The row a new task's first save writes, and the one that instance's second save writes. */
  function FirstRow(r: Row, now: int): Row {
    r.(createdAt := now)
  }

  function SecondRow(r: Row, now: int, status: Status): Row {
    FirstRow(r, now).(expiryAt := ExpiryAfterSave(FirstRow(r, now)), status := status)
  }

  /**
   A task with a time to live cannot expire on its first save alone, whatever the clock says. When
   the same instance saves it a second time it is due exactly when it is pending and its time is
   up; saves by reloaded instances are the subject of TaskExpiry.
   */
  lemma ExpiryNeedsSecondSave(r: Row, created: int, status: Status, clock: int)
    requires r.expiryAt == None && r.ttl != 0
    ensures !IsDue(FirstRow(r, created).(status := status), clock)
    ensures IsDue(SecondRow(r, created, status), clock) <==> status == Pending && created + r.ttl <= clock
  {
  }

  /** The two rows are those that saving a new task twice leaves in the table. */
  method SaveNewTaskTwice(table: Table, kind: Option<string>, ttl: nat, status: Status, now: int, later: int) returns (task: Task)
    requires |Counted(table.rows)| < LIMIT && forall id | id in table.rows :: id < table.nextId
    modifies table
    ensures task.id == Some(old(table.nextId))
    ensures var r := Row(kind, Init, ttl, 0, None, None, None);
            table.rows == old(table.rows)[old(table.nextId) := SecondRow(r, now, status)]
  {
    ghost var r := Row(kind, Init, ttl, 0, None, None, None);
    InsertWithinLimit(table.rows, table.nextId, FirstRow(r, now));
    task := new Task.New(kind, ttl);
    task.Save(table, now);
    task.status := status;
    KindKept(table.rows, task.id.value, task.Fields());
    task.Save(table, later);
  }

  lemma InsertWithinLimit(rows: Rows, id: nat, r: Row)
    requires |Counted(rows)| < LIMIT
    ensures |Counted(rows[id := r])| <= LIMIT && Pruned(rows[id := r]) == rows[id := r]
  {
    InsertCounts(rows, id, r);
  }

  lemma InsertCounts(rows: Rows, id: nat, r: Row)
    ensures Counted(rows[id := r]) == if IsReport(r) then Counted(rows) - {id} else Counted(rows) + {id}
  {
  }

  // ----- What the table holds over whole runs

  /** A save in a run: a new task, or a task created earlier, whose type stays as it was. */
  datatype Event = Create(row: Row, now: int) | Resave(id: nat, row: Row, now: int)

  /** The table, and whether each task ever created is a report. */
  datatype History = History(db: Db, created: map<nat, bool>)

  predicate Allowed(h: History, e: Event) {
    e.Resave? ==> e.id in h.created && h.created[e.id] == IsReport(e.row)
  }

  function After(h: History, e: Event): History {
    match e
    case Create(row, now) => History(Inserted(h.db, row, now), h.created[h.db.nextId := IsReport(row)])
    case Resave(id, row, now) => h.(db := Saved(h.db, id, row, now))
  }

  /** Every task that counts and was ever created. */
  function EverCounted(h: History): set<nat> {
    set id | id in h.created && !h.created[id]
  }

  /** kept is the set of the LIMIT largest members of all, or all of it when it is no larger. */
  ghost predicate AreLargest(kept: set<nat>, all: set<nat>) {
    && kept <= all && |kept| <= LIMIT
    && (kept == all || |kept| == LIMIT)
    && forall a, b | a in kept && b in all && b !in kept :: b < a
  }

  /** Ids are handed out in order, stored tasks keep their type, and every report is stored. */
  ghost predicate Consistent(h: History) {
    && (forall id | id in h.created :: id < h.db.nextId)
    && (forall id | id in h.db.rows :: id in h.created && h.created[id] == IsReport(h.db.rows[id]))
    && (forall id | id in h.created && h.created[id] :: id in h.db.rows)
  }

  /** The table holds every report ever created, and of the other tasks the LIMIT most recent. */
  ghost predicate KeepsMostRecent(h: History) {
    Consistent(h) && AreLargest(Counted(h.db.rows), EverCounted(h))
  }

  lemma AddNewest(kept: set<nat>, all: set<nat>, id: nat)
    requires AreLargest(kept, all) && forall x | x in all :: x < id
    ensures var k := kept + {id};
            AreLargest(if |k| > LIMIT then k - {Least(k)} else k, all + {id})
  {
    var k := kept + {id};
    assert |k| == |kept| + 1;
    if |k| > LIMIT {
      var m := Least(k);
      assert |k - {m}| == LIMIT;
      forall a, b | a in k - {m} && b in all + {id} && b !in k - {m}
        ensures b < a
      {
        assert b == m || b !in kept;
      }
    } else {
      assert kept == all;
    }
  }

  lemma AddStale(kept: set<nat>, all: set<nat>, id: nat)
    requires AreLargest(kept, all) && id in all
    ensures var k := kept + {id};
            (if |k| > LIMIT then k - {Least(k)} else k) == kept
  {
    var k := kept + {id};
    if id in kept {
      assert k == kept;
    } else {
      assert |k| == |kept| + 1 && |kept| == LIMIT;
      assert Least(k) == id;
      assert k - {id} == kept;
    }
  }

  lemma PrunedCounts(rows: Rows)
    ensures var k := Counted(rows); Counted(Pruned(rows)) == if |k| > LIMIT then k - {Least(k)} else k
    ensures forall id | id in rows && IsReport(rows[id]) :: id in Pruned(rows)
    ensures forall id | id in Pruned(rows) :: id in rows && Pruned(rows)[id] == rows[id]
  {
  }

  /** The id and row an event writes. */
  function EventId(h: History, e: Event): nat {
    if e.Create? then h.db.nextId else e.id
  }

  function EventRow(h: History, e: Event): Row {
    if e.Create? then e.row.(createdAt := e.now) else Written(h.db, e.id, e.row, e.now)
  }

  lemma StepConsistent(h: History, e: Event)
    requires Consistent(h) && Allowed(h, e)
    ensures Consistent(After(h, e))
  {
    hide Pruned, Counted;
    PrunedCounts(h.db.rows[EventId(h, e) := EventRow(h, e)]);
  }

  lemma EverCountedAfter(h: History, e: Event)
    requires Consistent(h) && Allowed(h, e)
    ensures EverCounted(After(h, e)) == if e.Create? && !IsReport(e.row) then EverCounted(h) + {h.db.nextId} else EverCounted(h)
  {
    hide Pruned;
  }

  lemma StepKeepsMostRecent(h: History, e: Event)
    requires KeepsMostRecent(h) && Allowed(h, e)
    ensures KeepsMostRecent(After(h, e))
  {
    StepConsistent(h, e);
    EverCountedAfter(h, e);
    var id, row := EventId(h, e), EventRow(h, e);
    PrunedCounts(h.db.rows[id := row]);
    InsertCounts(h.db.rows, id, row);
    var kept, all := Counted(h.db.rows), EverCounted(h);
    if IsReport(e.row) {
      assert id !in kept;
      assert kept - {id} == kept;
      WithinLimit(kept, all);
    } else if e.Create? {
      hide Least, AreLargest, Pruned, Counted;
      AddNewest(kept, all, id);
    } else {
      hide Least, AreLargest, Pruned, Counted;
      AddStale(kept, all, id);
    }
  }

  lemma WithinLimit(kept: set<nat>, all: set<nat>)
    requires AreLargest(kept, all)
    ensures |kept| <= LIMIT
  {
  }

  function Run(events: seq<Event>): History {
    if events == [] then History(Db(map[], 0, []), map[])
    else After(Run(events[..|events| - 1]), events[|events| - 1])
  }

  /** Each event is allowed after the ones before it. */
  predicate AllowedRun(events: seq<Event>) {
    events != [] ==>
      var init := events[..|events| - 1];
      AllowedRun(init) && Allowed(Run(init), events[|events| - 1])
  }

  /**
   In every serial run of creates and re-saves from an empty table, pruned tasks included, at most
   LIMIT counted tasks exist after each save, they are those with the largest ids, and no report is
   ever pruned.
   */
  lemma {:induction false} RunKeepsMostRecent(events: seq<Event>)
    requires AllowedRun(events)
    ensures KeepsMostRecent(Run(events))
    decreases |events|
  {
    if events == [] {
      assert Counted(map[]) == {} == EverCounted(Run(events));
    } else {
      hide KeepsMostRecent, Allowed, After, Counted;
      var init := events[..|events| - 1];
      RunKeepsMostRecent(init);
      StepKeepsMostRecent(Run(init), events[|events| - 1]);
    }
  }

  /** The types that are never pruned. */
  lemma ReportTypes(r: Row)
    ensures IsReport(r) <==> r.kind == Some("calculate_balance_report") || r.kind == Some("calculate_pl_report")
  {
  }

  /** The run's invariant in numbers: at most 3000 tasks that are not reports, fewer only if all are there, and every report. */
  lemma AtMost3000(events: seq<Event>)
    requires AllowedRun(events)
    ensures var h := Run(events);
            var counted := set id | id in h.db.rows && !IsReport(h.db.rows[id]);
            && |counted| <= 3000
            && (|counted| < 3000 ==> forall id | id in h.created :: id in h.db.rows)
            && forall id | id in h.created && h.created[id] :: id in h.db.rows
  {
    RunKeepsMostRecent(events);
    var h := Run(events);
    var counted := set id | id in h.db.rows && !IsReport(h.db.rows[id]);
    assert Counted(h.db.rows) == counted;
    if |counted| < 3000 {
      forall id | id in h.created
        ensures id in h.db.rows
      {
        assert !h.created[id] ==> id in EverCounted(h);
      }
    }
  }

  /** Within the limit a save changes one row: a stored task as it is in memory, a lost one with a new time of creation. */
  lemma SaveWithinLimit(db: Db, id: nat, r: Row, now: int)
    requires |Counted(db.rows)| < LIMIT
    ensures var db' := Saved(db, id, r, now);
            && db'.nextId == db.nextId
            && db'.rows == if id in db.rows then db.rows[id := r]
                           else db.rows[id := Row(r.kind, r.status, r.ttl, now, r.expiryAt, r.notes, r.progress)]
  {
    InsertWithinLimit(db.rows, id, Written(db, id, r, now));
  }
}
