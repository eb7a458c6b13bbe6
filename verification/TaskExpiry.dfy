/**
 When a task's expiry reaches the table. `CeleryTask.save` sets it in memory after the row is
 written, so it depends on which instance of the task saves next.
 */
module TaskExpiry {
  import opened TaskStore

  /**
   What happens to a task after it was created: an instance loads its row, is edited or saves, or
   the table changes elsewhere. Instance 0 is the one that created the task.
   */
  datatype Act =
    | Load(i: nat)
    | Edit(i: nat, status: Status, notes: Option<string>, progress: Option<Progress>)
    | Save(i: nat, now: int)
    | Elsewhere(db: Db)

  /** The task's id, the table, and the instances of the task in memory. */
  datatype Life = Life(id: nat, db: Db, memory: map<nat, Row>)

  function Born(db: Db, r: Row, now: int): Life {
    Life(db.nextId, Inserted(db, r, now), map[0 := Remembered(r.(createdAt := now))])
  }

  /** Changes elsewhere may delete the row or change its status, but write no expiry to it. */
  ghost predicate Spares(id: nat, db: Db, db': Db) {
    && db.log <= db'.log
    && (forall a | |db.log| <= a < |db'.log| :: db'.log[a].id != id)
    && (id in db'.rows ==>
          && id in db.rows && db'.rows[id].ttl == db.rows[id].ttl
          && db'.rows[id].createdAt == db.rows[id].createdAt && db'.rows[id].expiryAt == db.rows[id].expiryAt)
  }

  ghost predicate Possible(l: Life, a: Act) {
    match a
    case Load(_) => l.id in l.db.rows
    case Edit(i, _, _, _) => i in l.memory
    case Save(i, _) => i in l.memory
    case Elsewhere(db) => Spares(l.id, l.db, db)
  }

  ghost function After(l: Life, a: Act): Life
    requires Possible(l, a)
  {
    match a
    case Load(i) => l.(memory := l.memory[i := l.db.rows[l.id]])
    case Edit(i, status, notes, progress) =>
      l.(memory := l.memory[i := l.memory[i].(status := status, notes := notes, progress := progress)])
    case Save(i, now) =>
      Life(l.id, Saved(l.db, l.id, l.memory[i], now),
           l.memory[i := Remembered(Written(l.db, l.id, l.memory[i], now))])
    case Elsewhere(db) => l.(db := db)
  }

  /** Each act is possible after the ones before it. */
  ghost predicate PossibleRun(l: Life, acts: seq<Act>)
    decreases |acts|, 0
  {
    acts != [] ==>
      var init := acts[..|acts| - 1];
      PossibleRun(l, init) && Possible(Run(l, init), acts[|acts| - 1])
  }

  ghost function Run(l: Life, acts: seq<Act>): Life
    requires PossibleRun(l, acts)
    decreases |acts|, 1
  {
    if acts == [] then l else After(Run(l, acts[..|acts| - 1]), acts[|acts| - 1])
  }

  /** The instance has saved since it was last loaded; creating the task was a save of instance 0. */
  predicate SavedSince(acts: seq<Act>, i: nat) {
    if acts == [] then i == 0
    else
      var last := acts[|acts| - 1];
      if last.Save? && last.i == i then true
      else if last.Load? && last.i == i then false
      else SavedSince(acts[..|acts| - 1], i)
  }

  /** Some instance saved again without loading in between. */
  predicate Resaved(acts: seq<Act>) {
    acts != [] &&
    var init, last := acts[..|acts| - 1], acts[|acts| - 1];
    Resaved(init) || (last.Save? && SavedSince(init, last.i))
  }

  predicate IsExpiryOf(w: Write, id: nat) {
    w.id == id && w.row.expiryAt.Some?
  }

  /** A row of the task with an expiry has been written. */
  ghost predicate ExpiryWritten(id: nat, log: seq<Write>) {
    exists a :: 0 <= a < |log| && IsExpiryOf(log[a], id)
  }

  /** What is known of one instance, given whether it saved since it was loaded and whether any did so twice. */
  predicate MemoryFits(r: Row, ttl: nat, saved: bool, resaved: bool) {
    && r.ttl == ttl
    && (saved ==> r.expiryAt.Some?)
    && (r.expiryAt.Some? ==> saved || resaved)
  }

  ghost predicate Known(l: Life, ttl: nat, acts: seq<Act>) {
    && (forall i | i in l.memory :: MemoryFits(l.memory[i], ttl, SavedSince(acts, i), Resaved(acts)))
    && (l.id in l.db.rows ==> MemoryFits(l.db.rows[l.id], ttl, false, Resaved(acts)))
    && (ExpiryWritten(l.id, l.db.log) <==> Resaved(acts))
  }

  lemma BornKnown(db: Db, r: Row, now: int)
    requires r.expiryAt == None && r.ttl != 0 && forall a | 0 <= a < |db.log| :: db.log[a].id < db.nextId
    ensures Known(Born(db, r, now), r.ttl, [])
  {
    hide Pruned;
    PrunedCounts(db.rows[db.nextId := r.(createdAt := now)]);
  }

  lemma SavedRow(db: Db, id: nat, r: Row, now: int)
    ensures var db' := Saved(db, id, r, now);
            && (id in db'.rows ==> db'.rows[id] == Written(db, id, r, now))
            && db'.log == db.log + [Write(id, Written(db, id, r, now))]
  {
    hide Pruned;
    PrunedCounts(db.rows[id := Written(db, id, r, now)]);
  }

  lemma WrittenAgain(l: Life, i: nat, now: int)
    requires i in l.memory
    ensures ExpiryWritten(l.id, After(l, Save(i, now)).db.log) <==> ExpiryWritten(l.id, l.db.log) || l.memory[i].expiryAt.Some?
  {
    hide Saved;
    var l' := After(l, Save(i, now));
    var n := |l.db.log|;
    SavedRow(l.db, l.id, l.memory[i], now);
    assert l'.db.log[n] == Write(l.id, Written(l.db, l.id, l.memory[i], now));
    assert IsExpiryOf(l'.db.log[n], l.id) <==> l.memory[i].expiryAt.Some?;
    forall a | 0 <= a < n
      ensures l'.db.log[a] == l.db.log[a]
    {
    }
    if ExpiryWritten(l.id, l.db.log) {
      var a :| 0 <= a < n && IsExpiryOf(l.db.log[a], l.id);
      assert IsExpiryOf(l'.db.log[a], l.id);
    }
  }

  lemma WrittenElsewhere(l: Life, db: Db)
    requires Spares(l.id, l.db, db)
    ensures ExpiryWritten(l.id, db.log) <==> ExpiryWritten(l.id, l.db.log)
  {
    if ExpiryWritten(l.id, l.db.log) {
      var a :| 0 <= a < |l.db.log| && IsExpiryOf(l.db.log[a], l.id);
      assert IsExpiryOf(db.log[a], l.id);
    }
  }

  lemma KnownAfter(l: Life, ttl: nat, init: seq<Act>, a: Act)
    requires ttl != 0 && Known(l, ttl, init) && Possible(l, a)
    ensures Known(After(l, a), ttl, init + [a])
  {
    hide ExpiryWritten, Saved;
    var acts := init + [a];
    assert acts[..|acts| - 1] == init && acts[|acts| - 1] == a;
    match a {
      case Load(i) =>
      case Edit(i, _, _, _) =>
      case Save(i, now) =>
        WrittenAgain(l, i, now);
        SavedRow(l.db, l.id, l.memory[i], now);
      case Elsewhere(db) =>
        WrittenElsewhere(l, db);
    }
  }

  lemma {:induction false} RunKnown(l: Life, ttl: nat, acts: seq<Act>)
    requires ttl != 0 && Known(l, ttl, []) && PossibleRun(l, acts)
    ensures Known(Run(l, acts), ttl, acts)
    decreases |acts|
  {
    if acts != [] {
      hide Known, Possible, After;
      var init, last := acts[..|acts| - 1], acts[|acts| - 1];
      RunKnown(l, ttl, init);
      KnownAfter(Run(l, init), ttl, init, last);
      assert acts == init + [last];
    }
  }

  /**
   Over every sequence of loads, edits and saves by any number of instances, with the table
   changing in between: an expiry is written if and only if some instance saves again after a save,
   without loading in between. Until then the stored task is never due.
   */
  lemma ExpiryWrittenExactly(db: Db, r: Row, now: int, acts: seq<Act>)
    requires r.expiryAt == None && r.ttl != 0 && forall a | 0 <= a < |db.log| :: db.log[a].id < db.nextId
    requires PossibleRun(Born(db, r, now), acts)
    ensures var l := Run(Born(db, r, now), acts);
            && (ExpiryWritten(l.id, l.db.log) <==> Resaved(acts))
            && (l.id in l.db.rows && !Resaved(acts) ==> forall clock :: !IsDue(l.db.rows[l.id], clock))
  {
    BornKnown(db, r, now);
    RunKnown(Born(db, r, now), r.ttl, acts);
  }

  /** The times in a row are those of the task's creation. */
  predicate Dated(r: Row, created: int, ttl: nat) {
    r.ttl == ttl && r.createdAt == created && (r.expiryAt.Some? ==> r.expiryAt.value == created + ttl)
  }

  ghost predicate AllDated(l: Life, created: int, ttl: nat) {
    && (forall i | i in l.memory :: Dated(l.memory[i], created, ttl))
    && (l.id in l.db.rows ==> Dated(l.db.rows[l.id], created, ttl))
  }

  /** No save of the run finds its row gone. */
  ghost predicate NeverLost(l: Life, acts: seq<Act>)
    requires PossibleRun(l, acts)
  {
    acts != [] ==>
      var init := acts[..|acts| - 1];
      NeverLost(l, init) && (acts[|acts| - 1].Save? ==> Run(l, init).id in Run(l, init).db.rows)
  }

  /** Then the expiry, wherever it is set, is the time of creation plus the time to live. */
  lemma {:induction false} ExpiryIsCreationPlusTtl(l: Life, created: int, ttl: nat, acts: seq<Act>)
    requires AllDated(l, created, ttl) && PossibleRun(l, acts) && NeverLost(l, acts)
    ensures var l' := Run(l, acts);
            && AllDated(l', created, ttl)
            && (l'.id in l'.db.rows ==>
                  forall clock :: IsDue(l'.db.rows[l'.id], clock) <==>
                    l'.db.rows[l'.id].status == Pending && l'.db.rows[l'.id].expiryAt.Some? && created + ttl <= clock)
    decreases |acts|
  {
    if acts != [] {
      hide Saved;
      var init, last := acts[..|acts| - 1], acts[|acts| - 1];
      ExpiryIsCreationPlusTtl(l, created, ttl, init);
      var m := Run(l, init);
      if last.Save? {
        SavedRow(m.db, m.id, m.memory[last.i], last.now);
      }
    }
  }

  /**
   How the worker starts a task: it loads the row the request saved, sets its status and saves once.
   The task has then been saved twice, and still it is due at no time.
   */
  lemma ReloadedTaskNeverExpires(db: Db, r: Row, now: int, notes: Option<string>, p: Option<Progress>, later: int)
    requires r.expiryAt == None && r.ttl != 0 && forall a | 0 <= a < |db.log| :: db.log[a].id < db.nextId
    requires PossibleRun(Born(db, r, now), [Load(1), Edit(1, Pending, notes, p), Save(1, later)])
    ensures var l := Run(Born(db, r, now), [Load(1), Edit(1, Pending, notes, p), Save(1, later)]);
            !ExpiryWritten(l.id, l.db.log) && (l.id in l.db.rows ==> forall clock :: !IsDue(l.db.rows[l.id], clock))
  {
    hide PossibleRun, Run;
    var load, edit, save := Load(1), Edit(1, Pending, notes, p), Save(1, later);
    var acts := [load, edit, save];
    assert acts[..2] == [load, edit] && [load, edit][..1] == [load] && [load][..0] == [];
    assert !SavedSince([load], 1) && !Resaved([load]);
    assert !SavedSince([load, edit], 1) && !Resaved([load, edit]);
    ExpiryWrittenExactly(db, r, now, acts);
  }

  /** An instance loaded before the expiry was written takes it back with its next save. */
  lemma StaleSaveErasesExpiry(db: Db, r: Row, now: int, t: int, u: int)
    requires r.expiryAt == None && r.ttl != 0 && forall a | 0 <= a < |db.log| :: db.log[a].id < db.nextId
    requires PossibleRun(Born(db, r, now), [Load(1), Save(0, t), Save(1, u)])
    ensures var l := Run(Born(db, r, now), [Load(1), Save(0, t), Save(1, u)]);
            && ExpiryWritten(l.id, l.db.log)
            && (l.id in l.db.rows ==> forall clock :: !IsDue(l.db.rows[l.id], clock))
  {
    var born, acts := Born(db, r, now), [Load(1), Save(0, t), Save(1, u)];
    assert acts[..2] == [Load(1), Save(0, t)] && acts[..2][..1] == [Load(1)] && [Load(1)][..0] == [];
    assert SavedSince([], 0) && SavedSince([Load(1)], 0) && Resaved(acts[..2]) && Resaved(acts);
    ExpiryWrittenExactly(db, r, now, acts);
    BornKnown(db, r, now);
    hide Saved, Inserted, ExpiryWritten;
    assert PossibleRun(born, acts[..2]) && PossibleRun(born, [Load(1)]) && Run(born, []) == born;
    var loaded := After(born, Load(1));
    var m := After(loaded, Save(0, t));
    assert Run(born, [Load(1)]) == loaded && Run(born, acts[..2]) == m;
    SavedRow(m.db, m.id, m.memory[1], u);
  }

  /** The reload on the objects themselves, in a table with room: pending in the table, and never due. */
  method StartReloaded(table: Table, kind: Option<string>, ttl: nat, now: int, later: int) returns (worker: Task)
    requires |Counted(table.rows)| < LIMIT && forall id | id in table.rows :: id < table.nextId
    modifies table
    ensures worker.id == Some(old(table.nextId))
    ensures table.rows == old(table.rows)[old(table.nextId) := Row(kind, Pending, ttl, now, None, None, None)]
    ensures forall clock :: !IsDue(table.rows[old(table.nextId)], clock)
    ensures ttl != 0 ==> worker.expiryAt == Some(now + ttl)
  {
    ghost var r := Row(kind, Init, ttl, 0, None, None, None);
    InsertWithinLimit(table.rows, table.nextId, FirstRow(r, now));
    var creator := new Task.New(kind, ttl);
    creator.Save(table, now);
    worker := new Task.Load(creator.id.value, table.rows[creator.id.value]);
    worker.status := Pending;
    KindKept(table.rows, worker.id.value, worker.Fields());
    worker.Save(table, later);
  }
}
