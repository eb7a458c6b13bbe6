/**
 Soft deletion of named objects: `FakeDeletableModel`, the destroy and bulk-restore endpoints, and
 the unique user codes of one master user.
 */
module SoftDelete {
  import opened Decimal
  import opened Text

  datatype Option<+T> = None | Some(value: T)

  const DASH := "-"
  const MARK := "(del) "

  /** A stored object, as far as deletion touches it. */
  datatype Row = Row(userCode: Option<string>, deletedUserCode: Option<string>, name: string, shortName: string,
                     isDeleted: bool, isEnabled: bool)

  /** What a request reports: it went through, the database or the code counter refused, or the guard did. */
  datatype Outcome = Done | IntegrityError | CodeTooBig | Conflict | NotFound

  type Rows = map<nat, Row>

  /** The objects and the counter that `generate_user_code("del", "", 0)` advances. */
  datatype State = State(rows: Rows, counter: nat)

  predicate Truthy(s: Option<string>) {
    s.Some? && s.value != ""
  }

  // ----- Generated codes

  /** The n-th generated code: "del" and the counter padded to 17 digits. */
  function DelCode(n: nat): string {
    "del" + ZeroFill(Str(n), 17)
  }

  lemma DelCodeInjective(m: nat, n: nat)
    requires DelCode(m) == DelCode(n)
    ensures m == n
  {
    assert DelCode(m)[3..] == ZeroFill(Str(m), 17) && DelCode(n)[3..] == ZeroFill(Str(n), 17);
    ZeroFillDenotes(Str(m), 17);
    ZeroFillDenotes(Str(n), 17);
    StrDenotes(m);
    StrDenotes(n);
  }

  /** Once a code fits its field, all earlier ones did. */
  lemma DelCodeGrows(m: nat, n: nat)
    requires m <= n
    ensures |DelCode(m)| <= |DelCode(n)|
  {
    StrGrows(m, n);
    ZeroFillDenotes(Str(m), 17);
    ZeroFillDenotes(Str(n), 17);
  }

  /** The first code: "del" and the number with 16 zeros in front. */
  lemma FirstDelCode()
    ensures DelCode(1) == "del" + Zeros(16) + "1"
  {
    assert Str(1) == "1";
    ZeroFillIsZeros("1", 17);
    hide ZeroFill, Zeros, Str;
    assert "del" + (Zeros(16) + "1") == "del" + Zeros(16) + "1";
  }

  /** How many codes there are: 25 characters hold a counter below 10 ** 22. */
  lemma DelCodes(n: nat)
    ensures |DelCode(n)| <= 25 <==> n < 10_000_000_000_000_000_000_000
  {
    hide Str, ZeroFill, PowerOfTen;
    StrLength(n, 22);
    ZeroFillDenotes(Str(n), 17);
    TenToThe22();
  }

  lemma TenToThe22()
    ensures PowerOfTen(22) == 10_000_000_000_000_000_000_000
  {
    assert PowerOfTen(8) == 100_000_000;
    assert PowerOfTen(15) == 1_000_000_000_000_000;
  }

  // ----- Rows before and after

  /** `NamedModel.save`: missing codes and short names default to the name. */
  function Defaulted(r: Row): Row {
    r.(userCode := if Truthy(r.userCode) then r.userCode else Some(r.name),
       shortName := if r.shortName == "" then r.name else r.shortName)
  }

  /** What `fake_delete` writes, given the generated code. */
  function Deleted(r: Row, code: string): Row {
    Defaulted(Row(Some(code), r.userCode, MARK + r.name, MARK + r.shortName, true, false))
  }

  /** What `restore` writes. The short name is taken from the name. */
  function Restored(r: Row): Row {
    var name := RemoveAll(r.name, MARK);
    Defaulted(Row(r.deletedUserCode, None, name, RemoveAll(name, MARK), false, true))
  }

  /** Another row already has the code. */
  predicate Taken(rows: Rows, id: nat, code: Option<string>) {
    code.Some? && exists j | j in rows :: j != id && rows[j].userCode == code
  }

  /** `save` under the unique constraint on user codes. */
  function Write(rows: Rows, id: nat, r: Row): (Rows, Outcome) {
    if Taken(rows, id, r.userCode) then (rows, IntegrityError) else (rows[id := r], Done)
  }

  // ----- Requests as functions of the state

  function SoftDeleted(s: State, id: nat): (State, Outcome)
    requires id in s.rows
  {
    var r := s.rows[id];
    if r.userCode == Some(DASH) then (s, Done)
    else
      var code := DelCode(s.counter + 1);
      if |code| > 25 then (s.(counter := s.counter + 1), CodeTooBig)
      else
        var (rows, outcome) := Write(s.rows, id, Deleted(r, code));
        (State(rows, s.counter + 1), outcome)
  }

  /** The destroy endpoint: the dash object is refused, a live object is soft-deleted, a deleted one removed. */
  function Destroyed(s: State, id: nat): (State, Outcome) {
    if id !in s.rows then (s, NotFound)
    else if s.rows[id].userCode == Some(DASH) then (s, Conflict)
    else SoftOrHardDeleted(s, id)
  }

  function SoftOrHardDeleted(s: State, id: nat): (State, Outcome)
    requires id in s.rows
  {
    if !s.rows[id].isDeleted then SoftDeleted(s, id) else (s.(rows := s.rows - {id}), Done)
  }

  /** The bulk-delete task on the objects that exist: a refusal does not stop it, and the last one is raised. */
  function BulkDeleted(s: State, ids: seq<nat>): (State, Outcome)
    decreases |ids|
  {
    if ids == [] then (s, Done)
    else
      var (s', outcome) := if ids[0] in s.rows then SoftOrHardDeleted(s, ids[0]) else (s, Done);
      Raised(outcome, BulkDeleted(s', ids[1..]))
  }

  function Raised(earlier: Outcome, later: (State, Outcome)): (State, Outcome) {
    (later.0, if later.1 == Done then earlier else later.1)
  }

  /** Restores one object after another and stops at the first refusal. */
  function RestoredAll(rows: Rows, ids: seq<nat>): (Rows, Outcome)
    requires forall id | id in ids :: id in rows
  {
    if ids == [] then (rows, Done)
    else
      var (rows', outcome) := Write(rows, ids[0], Restored(rows[ids[0]]));
      if outcome == Done then RestoredAll(rows', ids[1..]) else (rows', outcome)
  }

  /** A stored user code equals one of the codes to be restored. */
  predicate CodesInUse(rows: Rows, ids: seq<nat>) {
    exists id, j | id in ids && j in rows :: id in rows && rows[id].deletedUserCode.Some? && rows[j].userCode == rows[id].deletedUserCode
  }

  /** The bulk-restore endpoint followed by its task; ids are listed in the order the query returns them. */
  function BulkRestored(s: State, ids: seq<nat>): (State, Outcome) {
    if CodesInUse(s.rows, ids) then (s, Conflict)
    else if exists id | id in ids :: id !in s.rows then (s, NotFound)
    else
      var (rows, outcome) := RestoredAll(s.rows, ids);
      (s.(rows := rows), outcome)
  }

  function Created(s: State, id: nat, userCode: Option<string>, name: string, shortName: string): (State, Outcome)
    requires id !in s.rows
  {
    var (rows, outcome) := Write(s.rows, id, Defaulted(Row(userCode, None, name, shortName, false, true)));
    (s.(rows := rows), outcome)
  }

  // ----- Requests as the source runs them

  /** The database table of one model, and its master user's counter. */
  class Registry {
    var rows: Rows
    var counter: nat

    constructor ()
      ensures State(rows, counter) == State(map[], 0)
    {
      rows, counter := map[], 0;
    }

    function Contents(): State
      reads this
    {
      State(rows, counter)
    }

    method Save(id: nat, r: Row) returns (outcome: Outcome)
      modifies this`rows
      ensures (rows, outcome) == Write(old(rows), id, r)
    {
      if Taken(rows, id, r.userCode) {
        return IntegrityError;
      }
      rows := rows[id := r];
      outcome := Done;
    }

    /** `generate_user_code("del", "", 0)`. */
    method GenerateDelCode() returns (code: Option<string>)
      modifies this`counter
      ensures counter == old(counter) + 1
      ensures code == if |DelCode(counter)| > 25 then None else Some(DelCode(counter))
    {
      counter := counter + 1;
      var result := DelCode(counter);
      code := if |result| > 25 then None else Some(result);
    }

    /** `perform_destroy` behind the dash check of `destroy`. */
    method Destroy(id: nat) returns (outcome: Outcome)
      modifies this
      ensures (Contents(), outcome) == Destroyed(old(Contents()), id)
    {
      if id !in rows {
        return NotFound;
      }
      if rows[id].userCode == Some(DASH) {
        return Conflict;
      }
      if !rows[id].isDeleted {
        var instance := new Instance(id, rows[id]);
        outcome := instance.FakeDelete(this);
      } else {
        rows := rows - {id};
        outcome := Done;
      }
    }

    /** The loop of the task `bulk_delete`; the query lists each object once. */
    method BulkDelete(ids: seq<nat>) returns (outcome: Outcome)
      requires forall i, j | 0 <= i < j < |ids| :: ids[i] != ids[j]
      modifies this
      ensures (Contents(), outcome) == BulkDeleted(old(Contents()), ids)
    {
      outcome := Done;
      assert ids[0..] == ids;
      for i := 0 to |ids|
        invariant BulkDeleted(old(Contents()), ids) == Raised(outcome, BulkDeleted(Contents(), ids[i..]))
      {
        assert ids[i..][1..] == ids[i + 1..];
        if ids[i] in rows {
          if !rows[ids[i]].isDeleted {
            var instance := new Instance(ids[i], rows[ids[i]]);
            var deleted := instance.FakeDelete(this);
            if deleted != Done {
              outcome := deleted;
            }
          } else {
            rows := rows - {ids[i]};
          }
        }
      }
    }

    /** `bulk_restore`: the guard of the endpoint, then the loop of the task. */
    method BulkRestore(ids: seq<nat>) returns (outcome: Outcome)
      requires forall i, j | 0 <= i < j < |ids| :: ids[i] != ids[j]
      modifies this
      ensures (Contents(), outcome) == BulkRestored(old(Contents()), ids)
    {
      hide CodesInUse, Restored, Taken;
      if CodesInUse(rows, ids) {
        return Conflict;
      }
      if exists id | id in ids :: id !in rows {
        return NotFound;
      }
      ghost var start := rows;
      assert ids[0..] == ids;
      var i := 0;
      while i < |ids|
        invariant 0 <= i <= |ids| && counter == old(counter)
        invariant forall id | id in ids[i..] :: id in rows
        invariant RestoredAll(start, ids) == RestoredAll(rows, ids[i..])
      {
        assert ids[i..][1..] == ids[i + 1..];
        var instance := new Instance(ids[i], rows[ids[i]]);
        outcome := instance.Restore(this);
        if outcome != Done {
          return;
        }
        i := i + 1;
      }
      outcome := Done;
    }
  }

  /** A loaded object: its fields change in memory first and reach the table in `save`. */
  class Instance {
    const id: nat
    var userCode: Option<string>
    var deletedUserCode: Option<string>
    var name: string
    var shortName: string
    var isDeleted: bool
    var isEnabled: bool

    constructor (id: nat, r: Row)
      ensures this.id == id && Fields() == r
    {
      this.id := id;
      userCode, deletedUserCode, name, shortName := r.userCode, r.deletedUserCode, r.name, r.shortName;
      isDeleted, isEnabled := r.isDeleted, r.isEnabled;
    }

    function Fields(): Row
      reads this
    {
      Row(userCode, deletedUserCode, name, shortName, isDeleted, isEnabled)
    }

    /** `NamedModel.save`. */
    method Save(table: Registry) returns (outcome: Outcome)
      modifies this, table`rows
      ensures Fields() == Defaulted(old(Fields()))
      ensures (table.rows, outcome) == Write(old(table.rows), id, Fields())
    {
      if userCode == None || userCode == Some("") {
        userCode := Some(name);
      }
      if shortName == "" {
        shortName := name;
      }
      outcome := table.Save(id, Fields());
    }

    /** `fake_delete`. The dash object is only flagged in memory: nothing is saved. */
    method FakeDelete(table: Registry) returns (outcome: Outcome)
      requires id in table.rows && table.rows[id] == Fields()
      modifies this, table
      ensures (table.Contents(), outcome) == SoftDeleted(old(table.Contents()), id)
    {
      isDeleted := true;
      if userCode == Some(DASH) {
        return Done;
      }
      deletedUserCode := userCode;
      name := MARK + name;
      shortName := MARK + shortName;
      var code := table.GenerateDelCode();
      if code.None? {
        return CodeTooBig;
      }
      userCode := code;
      isEnabled := false;
      outcome := Save(table);
    }

    /** `restore`. */
    method Restore(table: Registry) returns (outcome: Outcome)
      modifies this, table`rows
      ensures (table.rows, outcome) == Write(old(table.rows), id, Restored(old(Fields())))
    {
      isDeleted := false;
      name := RemoveAll(name, MARK);
      shortName := RemoveAll(name, MARK);
      userCode := deletedUserCode;
      deletedUserCode := None;
      isEnabled := true;
      outcome := Save(table);
    }
  }

  // ----- What a delete and a restore give back

  /**
   Deleting and restoring gives back the user code, and the name exactly when it never contained the
   mark; the short name becomes the name and the object is enabled.
   */
  lemma RestoreAfterDelete(r: Row, code: string)
    requires Truthy(r.userCode) && code != ""
    ensures var b := Restored(Deleted(r, code));
            && b.userCode == r.userCode && b.deletedUserCode == None && !b.isDeleted && b.isEnabled
            && (b.name == r.name <==> !Occurs(MARK, r.name))
            && (b == r <==> !Occurs(MARK, r.name) && r.shortName == r.name && !r.isDeleted && r.deletedUserCode == None && r.isEnabled)
  {
    RemoveAllPrefix(r.name, MARK);
    RemoveAllChanges(r.name, MARK);
    RemoveAllChanges(RemoveAll(r.name, MARK), MARK);
  }

  /** The row after any number of delete and restore rounds, each with its own generated code. */
  function Rounds(r: Row, codes: seq<string>): Row {
    if codes == [] then r else Restored(Deleted(Rounds(r, codes[..|codes| - 1]), codes[|codes| - 1]))
  }

  /** However often, the user code and a clean name come back and the mark never accumulates. */
  lemma {:induction false} RoundsKeepCodeAndName(r: Row, codes: seq<string>, code: string)
    requires Truthy(r.userCode) && !Occurs(MARK, r.name)
    requires forall i | 0 <= i < |codes| :: codes[i] != ""
    requires code != ""
    ensures Rounds(r, codes).userCode == r.userCode && Rounds(r, codes).name == r.name
    ensures Deleted(Rounds(r, codes), code).name == MARK + r.name
  {
    if codes != [] {
      RoundsKeepCodeAndName(r, codes[..|codes| - 1], code);
      RestoreAfterDelete(Rounds(r, codes[..|codes| - 1]), codes[|codes| - 1]);
    }
  }

  // ----- Codes over whole runs

  datatype Step =
    | Create(id: nat, userCode: Option<string>, name: string, shortName: string)
    | Destroy(id: nat)
    | BulkDelete(ids: seq<nat>)
    | BulkRestore(ids: seq<nat>)

  function Apply(s: State, step: Step): (State, Outcome) {
    match step
    case Create(id, userCode, name, shortName) =>
      if id in s.rows then (s, IntegrityError) else Created(s, id, userCode, name, shortName)
    case Destroy(id) => Destroyed(s, id)
    case BulkDelete(ids) => BulkDeleted(s, ids)
    case BulkRestore(ids) => BulkRestored(s, ids)
  }

  ghost predicate UniqueCodes(rows: Rows) {
    forall i, j | i in rows && j in rows && i != j :: rows[i].userCode != rows[j].userCode
  }

  /** A code the counter has yet to hand out. */
  ghost predicate IsFuture(code: Option<string>, counter: nat) {
    exists n: nat :: n > counter && code == Some(DelCode(n))
  }

  /** User codes are present and distinct, deleted objects remember theirs, and none is a future code. */
  ghost predicate Sound(s: State) {
    && UniqueCodes(s.rows)
    && forall i | i in s.rows ::
         && Truthy(s.rows[i].userCode) && !IsFuture(s.rows[i].userCode, s.counter)
         && (s.rows[i].isDeleted ==> Truthy(s.rows[i].deletedUserCode))
         && !IsFuture(s.rows[i].deletedUserCode, s.counter)
  }

  /** The objects of a batch exist, are deleted and were deleted under different codes. */
  ghost predicate IsDeletedBatch(rows: Rows, ids: seq<nat>) {
    && (forall i | 0 <= i < |ids| :: ids[i] in rows && rows[ids[i]].isDeleted)
    && (forall i, j | 0 <= i < j < |ids| ::
          ids[i] != ids[j] && rows[ids[i]].deletedUserCode != rows[ids[j]].deletedUserCode)
  }

  /** The user code a restore asks for: the remembered one, or the name where there is none. */
  function RestoredCode(r: Row): Option<string> {
    Restored(r).userCode
  }

  /** A code that an object may be given: not empty, and not one the counter has yet to hand out. */
  ghost predicate IsUsable(code: Option<string>, counter: nat) {
    Truthy(code) && !IsFuture(code, counter)
  }

  ghost predicate NoneTwice(ids: seq<nat>) {
    forall i, j | 0 <= i < j < |ids| :: ids[i] != ids[j]
  }

  /**
   What callers keep to: a new object has a usable code. The same goes for a live object in a batch
   to be restored, which is renamed: its user code is replaced by its name.
   */
  ghost predicate Proper(s: State, step: Step) {
    match step
    case Create(_, userCode, name, _) =>
      var code := if Truthy(userCode) then userCode else Some(name);
      Truthy(code) && !IsFuture(code, s.counter)
    case Destroy(_) => true
    case BulkDelete(_) => true
    case BulkRestore(ids) =>
      && NoneTwice(ids)
      && forall id | id in ids && id in s.rows && !s.rows[id].isDeleted :: IsUsable(RestoredCode(s.rows[id]), s.counter)
  }

  lemma FutureShrinks(code: Option<string>, counter: nat)
    ensures IsFuture(code, counter + 1) ==> IsFuture(code, counter)
    ensures code == Some(DelCode(counter + 1)) ==> !IsFuture(code, counter + 1)
    ensures IsFuture(Some(DelCode(counter + 1)), counter)
  {
    if code == Some(DelCode(counter + 1)) && IsFuture(code, counter + 1) {
      var n: nat :| n > counter + 1 && code == Some(DelCode(n));
      DelCodeInjective(n, counter + 1);
    }
  }

  /** A soft delete never collides: its generated code is in use nowhere. */
  lemma SoftDeleteSound(s: State, id: nat)
    requires Sound(s) && id in s.rows
    ensures Sound(SoftDeleted(s, id).0) && SoftDeleted(s, id).1 != IntegrityError
  {
    hide IsFuture, DelCode;
    var r, code := s.rows[id], DelCode(s.counter + 1);
    forall i | i in s.rows
      ensures !IsFuture(s.rows[i].userCode, s.counter + 1) && !IsFuture(s.rows[i].deletedUserCode, s.counter + 1)
      ensures s.rows[i].userCode != Some(code)
    {
      FutureShrinks(s.rows[i].userCode, s.counter);
      FutureShrinks(s.rows[i].deletedUserCode, s.counter);
    }
    FutureShrinks(Some(code), s.counter);
    DelCodeNonEmpty(s.counter + 1);
    FutureShrinks(r.userCode, s.counter);
  }

  lemma {:induction false} BulkDeleteSound(s: State, ids: seq<nat>)
    requires Sound(s)
    ensures Sound(BulkDeleted(s, ids).0) && BulkDeleted(s, ids).1 != IntegrityError
    decreases |ids|
  {
    if ids != [] {
      hide SoftDeleted, IsFuture;
      if ids[0] in s.rows && !s.rows[ids[0]].isDeleted {
        SoftDeleteSound(s, ids[0]);
      }
      BulkDeleteSound(if ids[0] in s.rows then SoftOrHardDeleted(s, ids[0]).0 else s, ids[1..]);
    }
  }

  lemma DelCodeNonEmpty(n: nat)
    ensures DelCode(n) != ""
  {
  }

  /** In the middle of a batch the codes still to be restored are free. */
  ghost predicate BatchReady(s: State, ids: seq<nat>) {
    && Sound(s) && IsDeletedBatch(s.rows, ids)
    && forall id, j | id in ids && j in s.rows :: s.rows[j].userCode != s.rows[id].deletedUserCode
  }

  lemma RestoreOneSound(s: State, ids: seq<nat>)
    requires ids != [] && BatchReady(s, ids)
    ensures var (rows, outcome) := Write(s.rows, ids[0], Restored(s.rows[ids[0]]));
            outcome == Done && BatchReady(s.(rows := rows), ids[1..])
  {
    hide IsFuture;
    var id := ids[0];
    var r := s.rows[id];
    assert id in ids;
    assert Restored(r).userCode == r.deletedUserCode && Restored(r).deletedUserCode == None;
    NoneIsNotFuture(s.counter);
    var rows := s.rows[id := Restored(r)];
    forall i | i in ids[1..]
      ensures i in ids && i != id && rows[i] == s.rows[i]
    {
      var k :| 1 <= k < |ids| && ids[k] == i;
    }
    forall k | 1 <= k < |ids|
      ensures s.rows[ids[k]].deletedUserCode != r.deletedUserCode
    {
    }
  }

  lemma NoneIsNotFuture(counter: nat)
    ensures !IsFuture(None, counter)
  {
  }

  /** A batch whose codes are free and different is restored completely, and nothing else changes. */
  lemma {:induction false} RestoreBatchSound(s: State, ids: seq<nat>)
    requires BatchReady(s, ids)
    ensures forall id | id in ids :: id in s.rows
    ensures var (rows, outcome) := RestoredAll(s.rows, ids);
            outcome == Done && Sound(s.(rows := rows)) && IsRestoration(s.rows, ids, rows)
    decreases |ids|
  {
    if ids != [] {
      BatchExists(s, ids);
      RestoreOneSound(s, ids);
      hide Sound, BatchReady, IsDeletedBatch, IsRestoration, Restored, Taken;
      var rows := Write(s.rows, ids[0], Restored(s.rows[ids[0]])).0;
      RestoreBatchSound(s.(rows := rows), ids[1..]);
      RestorationStep(s.rows, ids, RestoredAll(rows, ids[1..]).0);
    }
  }

  lemma BatchExists(s: State, ids: seq<nat>)
    requires BatchReady(s, ids)
    ensures forall id | id in ids :: id in s.rows
    ensures ids != [] ==> ids[0] !in ids[1..]
  {
    if ids != [] && ids[0] in ids[1..] {
      var k :| 1 <= k < |ids| && ids[k] == ids[0];
      assert false;
    }
  }

  /** Exactly the listed objects are restored. */
  ghost predicate IsRestoration(rows: Rows, ids: seq<nat>, rows': Rows) {
    && rows'.Keys == rows.Keys
    && forall i | i in rows :: rows'[i] == if i in ids then Restored(rows[i]) else rows[i]
  }

  lemma RestorationStep(rows: Rows, ids: seq<nat>, rows': Rows)
    requires ids != [] && ids[0] in rows && ids[0] !in ids[1..]
    requires IsRestoration(rows[ids[0] := Restored(rows[ids[0]])], ids[1..], rows')
    ensures IsRestoration(rows, ids, rows')
  {
    assert ids == [ids[0]] + ids[1..];
  }

  // ----- Batches that list live objects as well

  /** The new code of the i-th object is free at its turn: none restored before it got the same, and no other has it. */
  predicate FreeAt(rows: Rows, ids: seq<nat>, i: nat)
    requires i < |ids| && ids[i] in rows
  {
    forall j | j in rows && j != ids[i] ::
      (if j in ids[..i] then RestoredCode(rows[j]) else rows[j].userCode) != RestoredCode(rows[ids[i]])
  }

  predicate Admits(rows: Rows, ids: seq<nat>)
    requires forall i | 0 <= i < |ids| :: ids[i] in rows
  {
    forall i | 0 <= i < |ids| :: FreeAt(rows, ids, i)
  }

  lemma FreeFirst(rows: Rows, ids: seq<nat>)
    requires ids != [] && ids[0] in rows
    ensures FreeAt(rows, ids, 0) <==> !Taken(rows, ids[0], RestoredCode(rows[ids[0]]))
  {
    hide Restored;
    CodeIsSome(rows[ids[0]]);
    assert ids[..0] == [];
  }

  lemma FreeLater(rows: Rows, ids: seq<nat>, i: nat)
    requires i + 1 < |ids| && NoneTwice(ids) && ids[0] in rows && ids[i + 1] in rows
    ensures FreeAt(rows, ids, i + 1) <==> FreeAt(rows[ids[0] := Restored(rows[ids[0]])], ids[1..], i)
  {
    hide Restored;
    var id, rest := ids[0], ids[1..];
    FirstIsNotLater(ids);
    assert ids[..i + 1] == [id] + rest[..i] && rest[i] == ids[i + 1] && rest[i] in rest;
    assert forall j | j in rest[..i] :: j in rest;
  }

  lemma AdmitsStep(rows: Rows, ids: seq<nat>)
    requires ids != [] && NoneTwice(ids) && forall i | 0 <= i < |ids| :: ids[i] in rows
    ensures var rows' := rows[ids[0] := Restored(rows[ids[0]])];
            && (forall i | 0 <= i < |ids[1..]| :: ids[1..][i] in rows')
            && (Admits(rows, ids) <==> !Taken(rows, ids[0], RestoredCode(rows[ids[0]])) && Admits(rows', ids[1..]))
  {
    hide Restored, FreeAt, Taken;
    var rows' := rows[ids[0] := Restored(rows[ids[0]])];
    FreeFirst(rows, ids);
    forall i | 0 <= i < |ids[1..]|
      ensures FreeAt(rows', ids[1..], i) <==> FreeAt(rows, ids, i + 1)
    {
      FreeLater(rows, ids, i);
    }
    if FreeAt(rows, ids, 0) && Admits(rows', ids[1..]) {
      forall i | 0 <= i < |ids|
        ensures FreeAt(rows, ids, i)
      {
        assert i > 0 ==> FreeAt(rows', ids[1..], i - 1);
      }
    }
  }

  lemma CodeIsSome(r: Row)
    ensures RestoredCode(r).Some?
  {
  }

  /** The batch goes through exactly when every new code is free at its turn, and then restores just the listed objects. */
  lemma {:induction false} RestoredExactly(rows: Rows, ids: seq<nat>)
    requires NoneTwice(ids) && forall id | id in ids :: id in rows
    ensures var (rows', outcome) := RestoredAll(rows, ids);
            (outcome == Done <==> Admits(rows, ids)) && (outcome == Done ==> IsRestoration(rows, ids, rows'))
    decreases |ids|
  {
    if ids != [] {
      hide Admits, IsRestoration, Restored, Taken;
      AdmitsStep(rows, ids);
      FirstIsNotLater(ids);
      var (rows', outcome) := Write(rows, ids[0], Restored(rows[ids[0]]));
      if outcome == Done {
        RestoredExactly(rows', ids[1..]);
        if RestoredAll(rows', ids[1..]).1 == Done {
          RestorationStep(rows, ids, RestoredAll(rows', ids[1..]).0);
        }
      }
    }
  }

  lemma FirstIsNotLater(ids: seq<nat>)
    requires ids != [] && NoneTwice(ids)
    ensures ids[0] !in ids[1..]
  {
  }

  /** Restoring usable codes keeps the codes sound, whether the batch goes through or stops on the way. */
  lemma {:induction false} RestoredAllSound(s: State, ids: seq<nat>)
    requires Sound(s) && NoneTwice(ids) && forall id | id in ids :: id in s.rows
    requires forall id | id in ids :: IsUsable(RestoredCode(s.rows[id]), s.counter)
    ensures Sound(s.(rows := RestoredAll(s.rows, ids).0))
    decreases |ids|
  {
    if ids != [] {
      hide IsFuture, Restored;
      var (rows', outcome) := Write(s.rows, ids[0], Restored(s.rows[ids[0]]));
      if outcome == Done {
        FirstIsNotLater(ids);
        OneRestoredSound(s, ids[0]);
        assert forall id | id in ids[1..] :: id in ids && id != ids[0];
        RestoredAllSound(s.(rows := rows'), ids[1..]);
      } else {
        assert s.(rows := rows') == s;
      }
    }
  }

  lemma OneRestoredSound(s: State, id: nat)
    requires Sound(s) && id in s.rows && IsUsable(RestoredCode(s.rows[id]), s.counter)
    requires !Taken(s.rows, id, RestoredCode(s.rows[id]))
    ensures Sound(s.(rows := s.rows[id := Restored(s.rows[id])]))
  {
    hide IsFuture;
    NoneIsNotFuture(s.counter);
  }

  lemma DeletedIsUsable(s: State, id: nat)
    requires Sound(s) && id in s.rows && s.rows[id].isDeleted
    ensures IsUsable(RestoredCode(s.rows[id]), s.counter) && RestoredCode(s.rows[id]) == s.rows[id].deletedUserCode
  {
  }

  /**
   Any batch of existing objects, live ones included, which the endpoint does not tell apart: when
   it goes through, and when the codes are sound afterwards.
   */
  lemma AnyBatchExactly(s: State, ids: seq<nat>)
    requires Sound(s) && NoneTwice(ids) && forall id | id in ids :: id in s.rows
    ensures var (s', outcome) := BulkRestored(s, ids);
            && (outcome == Done <==> !CodesInUse(s.rows, ids) && Admits(s.rows, ids))
            && (outcome == Done ==>
                  (Sound(s') <==> forall id | id in ids && !s.rows[id].isDeleted :: IsUsable(RestoredCode(s.rows[id]), s.counter)))
  {
    hide IsFuture, CodesInUse, Admits, Restored;
    RestoredExactly(s.rows, ids);
    var (s', outcome) := BulkRestored(s, ids);
    if outcome == Done {
      if forall id | id in ids && !s.rows[id].isDeleted :: IsUsable(RestoredCode(s.rows[id]), s.counter) {
        forall id | id in ids
          ensures IsUsable(RestoredCode(s.rows[id]), s.counter)
        {
          if s.rows[id].isDeleted {
            DeletedIsUsable(s, id);
          }
        }
        RestoredAllSound(s, ids);
      }
    }
  }

  /** For a batch of existing deleted objects, the guard and distinctness decide completely. */
  lemma BulkRestoreExactly(s: State, ids: seq<nat>)
    requires Sound(s)
    requires forall i | 0 <= i < |ids| :: ids[i] in s.rows && s.rows[ids[i]].isDeleted
    requires forall i, j | 0 <= i < j < |ids| :: ids[i] != ids[j]
    ensures BulkRestored(s, ids).1 == Done <==>
              && !CodesInUse(s.rows, ids)
              && forall i, j | 0 <= i < j < |ids| :: s.rows[ids[i]].deletedUserCode != s.rows[ids[j]].deletedUserCode
  {
    assert forall id | id in ids :: id in s.rows;
    if !CodesInUse(s.rows, ids) {
      if forall i, j | 0 <= i < j < |ids| :: s.rows[ids[i]].deletedUserCode != s.rows[ids[j]].deletedUserCode {
        RestoreBatchSound(s, ids);
      } else {
        var i, j :| 0 <= i < j < |ids| && s.rows[ids[i]].deletedUserCode == s.rows[ids[j]].deletedUserCode;
        SecondCopyRefused(s.rows, ids, i, j);
      }
    }
  }

  /** Two objects deleted under one code cannot both be restored. */
  lemma {:induction false} SecondCopyRefused(rows: Rows, ids: seq<nat>, i: nat, j: nat)
    requires forall k | 0 <= k < |ids| :: ids[k] in rows
    requires forall k, l | 0 <= k < l < |ids| :: ids[k] != ids[l]
    requires i < j < |ids| && Truthy(rows[ids[j]].deletedUserCode)
    requires rows[ids[i]].deletedUserCode == rows[ids[j]].deletedUserCode
    ensures RestoredAll(rows, ids).1 != Done
    decreases |ids|
  {
    var (rows', outcome) := Write(rows, ids[0], Restored(rows[ids[0]]));
    if outcome == Done {
      var rest := ids[1..];
      assert forall k | 0 <= k < |rest| :: rest[k] == ids[k + 1] && rest[k] != ids[0] && rows'[rest[k]] == rows[rest[k]];
      if i == 0 {
        assert rows'[ids[0]].userCode == rows[ids[j]].deletedUserCode;
        HolderRefused(rows', rest, ids[0], j - 1);
      } else {
        SecondCopyRefused(rows', rest, i - 1, j - 1);
      }
    }
  }

  /** A code held by an object outside the batch cannot be restored to one inside. */
  lemma {:induction false} HolderRefused(rows: Rows, ids: seq<nat>, holder: nat, j: nat)
    requires forall k | 0 <= k < |ids| :: ids[k] in rows && ids[k] != holder
    requires forall k, l | 0 <= k < l < |ids| :: ids[k] != ids[l]
    requires holder in rows && j < |ids| && Truthy(rows[ids[j]].deletedUserCode)
    requires rows[holder].userCode == rows[ids[j]].deletedUserCode
    ensures RestoredAll(rows, ids).1 != Done
    decreases |ids|
  {
    var (rows', outcome) := Write(rows, ids[0], Restored(rows[ids[0]]));
    if j == 0 {
      assert Restored(rows[ids[0]]).userCode == rows[holder].userCode;
      assert Taken(rows, ids[0], Restored(rows[ids[0]]).userCode);
    } else if outcome == Done {
      var rest := ids[1..];
      assert forall k | 0 <= k < |rest| :: rest[k] == ids[k + 1] && rest[k] != ids[0] && rows'[rest[k]] == rows[rest[k]];
      HolderRefused(rows', rest, holder, j - 1);
    }
  }

  // ----- A bulk restore undoes a bulk delete

  /** The row was soft-deleted after the counter stood at the given value. */
  ghost predicate DeletedSince(r: Row, r': Row, counter: nat) {
    exists n: nat :: n > counter && r' == Deleted(r, DelCode(n))
  }

  /** Exactly the listed objects were soft-deleted. */
  ghost predicate IsDeletion(rows: Rows, ids: seq<nat>, rows': Rows, counter: nat) {
    && rows'.Keys == rows.Keys
    && forall i | i in rows :: if i in ids then DeletedSince(rows[i], rows'[i], counter) else rows'[i] == rows[i]
  }

  /** Objects that exist, each listed once, live and other than the dash object. */
  ghost predicate IsLiveBatch(rows: Rows, ids: seq<nat>) {
    && (forall id | id in ids :: id in rows && !rows[id].isDeleted && rows[id].userCode != Some(DASH))
    && forall i, j | 0 <= i < j < |ids| :: ids[i] != ids[j]
  }

  lemma SoftDeleteMeaning(s: State, ids: seq<nat>)
    requires Sound(s) && ids != [] && ids[0] in s.rows && IsLiveBatch(s.rows, ids)
    requires |DelCode(s.counter + |ids|)| <= 25
    ensures var (s', outcome) := SoftDeleted(s, ids[0]);
            && outcome == Done && s'.counter == s.counter + 1 && Sound(s')
            && IsDeletion(s.rows, [ids[0]], s'.rows, s.counter) && IsLiveBatch(s'.rows, ids[1..])
    ensures !s.rows[ids[0]].isDeleted && ids[0] !in ids[1..]
  {
    var id, code := ids[0], DelCode(s.counter + 1);
    assert id in ids;
    SoftDeleteSound(s, id);
    FreshCodeFits(s, id, |ids|);
    hide Sound, SoftDeleted, DelCode, Deleted;
    var s' := SoftDeleted(s, id).0;
    assert DeletedSince(s.rows[id], s'.rows[id], s.counter);
    FirstIsNotLater(ids);
    assert forall i | i in ids[1..] :: i in ids && i != id;
  }

  lemma FreshCodeFits(s: State, id: nat, n: nat)
    requires Sound(s) && id in s.rows && s.rows[id].userCode != Some(DASH)
    requires n > 0 && |DelCode(s.counter + n)| <= 25
    ensures SoftDeleted(s, id) == (State(s.rows[id := Deleted(s.rows[id], DelCode(s.counter + 1))], s.counter + 1), Done)
  {
    DelCodeGrows(s.counter + 1, s.counter + n);
    SoftDeleteSound(s, id);
    hide Sound, DelCode, Deleted, Taken;
  }

  lemma DeletionStep(rows: Rows, rows': Rows, rows'': Rows, ids: seq<nat>, counter: nat)
    requires ids != [] && ids[0] in rows && ids[0] !in ids[1..]
    requires IsDeletion(rows, [ids[0]], rows', counter) && IsDeletion(rows', ids[1..], rows'', counter + 1)
    ensures IsDeletion(rows, ids, rows'', counter)
  {
    hide Deleted, DelCode;
    assert ids == [ids[0]] + ids[1..];
  }

  /** A bulk delete of live objects goes through while the generated codes fit, and deletes just those. */
  lemma {:induction false} BulkDeleteMeaning(s: State, ids: seq<nat>)
    requires Sound(s) && IsLiveBatch(s.rows, ids)
    requires |DelCode(s.counter + |ids|)| <= 25
    ensures var (s', outcome) := BulkDeleted(s, ids);
            outcome == Done && Sound(s') && IsDeletion(s.rows, ids, s'.rows, s.counter)
    decreases |ids|
  {
    if ids != [] {
      assert ids[0] in ids && ids[0] in s.rows;
      SoftDeleteMeaning(s, ids);
      var s' := SoftDeleted(s, ids[0]).0;
      hide Sound, SoftDeleted, IsDeletion, IsLiveBatch, DelCode;
      BulkDeleteMeaning(s', ids[1..]);
      DeletionStep(s.rows, s'.rows, BulkDeleted(s', ids[1..]).0.rows, ids, s.counter);
    }
  }

  /** What deletion leaves is a batch that the restore guard lets through. */
  lemma DeletionIsRestorable(s: State, ids: seq<nat>, s': State, back: seq<nat>)
    requires Sound(s) && Sound(s') && IsLiveBatch(s.rows, ids) && IsDeletion(s.rows, ids, s'.rows, s.counter)
    requires forall id :: id in back <==> id in ids
    requires forall i, j | 0 <= i < j < |back| :: back[i] != back[j]
    ensures BatchReady(s', back)
  {
    hide DelCode;
    forall id | id in back
      ensures id in s.rows && DeletedSince(s.rows[id], s'.rows[id], s.counter)
    {
    }
    forall i | 0 <= i < |back|
      ensures back[i] in back && s'.rows[back[i]].isDeleted && s'.rows[back[i]].deletedUserCode == s.rows[back[i]].userCode
    {
    }
    forall id, j | id in back && j in s'.rows
      ensures s'.rows[j].userCode != s'.rows[id].deletedUserCode
    {
      if j in ids {
        DeletedTakesFreshCode(s.rows[j], s'.rows[j], s.counter, s.rows[id].userCode);
      }
    }
  }

  lemma DeletedTakesFreshCode(r: Row, r': Row, counter: nat, code: Option<string>)
    requires DeletedSince(r, r', counter) && !IsFuture(code, counter)
    ensures r'.userCode != code
  {
    var n: nat :| n > counter && r' == Deleted(r, DelCode(n));
    DelCodeNonEmpty(n);
    assert r'.userCode == Some(DelCode(n));
  }

  /** The row differs from the original at most in a name that held the mark, and in its short name and enabling. */
  ghost predicate IsBack(r: Row, r': Row) {
    && r'.userCode == r.userCode && r'.deletedUserCode == None && !r'.isDeleted && r'.isEnabled
    && (r'.name == r.name <==> !Occurs(MARK, r.name))
  }

  /**
   A bulk delete of live objects followed by a bulk restore of the same ones, in whatever order: the
   guard lets it through, every object has its user code back and its name exactly when that never
   held the mark, and no other object has changed.
   */
  lemma BulkRestoreUndoesBulkDelete(s: State, ids: seq<nat>, back: seq<nat>)
    requires Sound(s) && IsLiveBatch(s.rows, ids)
    requires |DelCode(s.counter + |ids|)| <= 25
    requires forall id :: id in back <==> id in ids
    requires forall i, j | 0 <= i < j < |back| :: back[i] != back[j]
    ensures var (s', outcome) := BulkRestored(BulkDeleted(s, ids).0, back);
            && BulkDeleted(s, ids).1 == Done && outcome == Done && Sound(s')
            && s'.rows.Keys == s.rows.Keys
            && forall i | i in s.rows :: if i in ids then IsBack(s.rows[i], s'.rows[i]) else s'.rows[i] == s.rows[i]
  {
    hide Restored, Deleted, DelCode, IsBack, BulkDeleted, RestoredAll;
    BulkDeleteMeaning(s, ids);
    var s1 := BulkDeleted(s, ids).0;
    DeletionIsRestorable(s, ids, s1, back);
    RestoreBatchSound(s1, back);
    NothingInUse(s1, back);
    forall i | i in s.rows && i in ids
      ensures IsBack(s.rows[i], Restored(s1.rows[i]))
    {
      BackAgain(s.rows[i], s1.rows[i], s.counter);
    }
  }

  lemma NothingInUse(s: State, ids: seq<nat>)
    requires BatchReady(s, ids)
    ensures !CodesInUse(s.rows, ids)
  {
  }

  lemma BackAgain(r: Row, r': Row, counter: nat)
    requires Truthy(r.userCode) && DeletedSince(r, r', counter)
    ensures IsBack(r, Restored(r'))
  {
    var n: nat :| n > counter && r' == Deleted(r, DelCode(n));
    DelCodeNonEmpty(n);
    RestoreAfterDelete(r, DelCode(n));
  }

  // ----- Whole runs

  // ----- What the requests do, case by case

  /** A soft-deleted object: a generated code, its own kept aside, both names marked, disabled. */
  lemma DeletedMeaning(r: Row, code: string)
    requires code != ""
    ensures Deleted(r, code) == Row(Some(code), r.userCode, "(del) " + r.name, "(del) " + r.shortName, true, false)
  {
  }

  /** A new object: an empty code or short name becomes the name, and nothing else is filled in. */
  lemma CreatedMeaning(s: State, id: nat, userCode: Option<string>, name: string, shortName: string)
    requires id !in s.rows
    ensures var (s', outcome) := Created(s, id, userCode, name, shortName);
            var code := if userCode == None || userCode == Some("") then Some(name) else userCode;
            && s'.counter == s.counter
            && (outcome == IntegrityError <==> exists j | j in s.rows :: s.rows[j].userCode == code)
            && (outcome == Done || outcome == IntegrityError)
            && s'.rows == (if outcome == IntegrityError then s.rows
                           else s.rows[id := Row(code, None, name, if shortName == "" then name else shortName, false, true)])
  {
  }

  /** Destroying an object: the dash object is refused, a deleted one goes for good, a live one is soft-deleted while codes last. */
  lemma DestroyExactly(s: State, id: nat)
    requires Sound(s)
    ensures var (s', outcome) := Destroyed(s, id);
            if id !in s.rows then s' == s && outcome == NotFound
            else if s.rows[id].userCode == Some("-") then s' == s && outcome == Conflict
            else if s.rows[id].isDeleted then
              && outcome == Done && s'.counter == s.counter && id !in s'.rows
              && (forall j | j != id :: j in s'.rows <==> j in s.rows)
              && (forall j | j in s'.rows :: s'.rows[j] == s.rows[j])
            else if s.counter + 1 < 10_000_000_000_000_000_000_000 then
              var r := s.rows[id];
              && outcome == Done && s'.counter == s.counter + 1
              && s'.rows == s.rows[id := Row(Some(DelCode(s.counter + 1)), r.userCode, "(del) " + r.name, "(del) " + r.shortName, true, false)]
            else s' == State(s.rows, s.counter + 1) && outcome == CodeTooBig
  {
    DelCodes(s.counter + 1);
    if id in s.rows && s.rows[id].userCode != Some(DASH) && !s.rows[id].isDeleted {
      DelCodeNonEmpty(s.counter + 1);
      DeletedMeaning(s.rows[id], DelCode(s.counter + 1));
      if s.counter + 1 < 10_000_000_000_000_000_000_000 {
        FreshCodeFits(s, id, 1);
      }
      hide Sound, DelCode, Deleted, Taken;
    }
  }

  /** What a bulk delete leaves of each object, going on past refusals. */
  ghost predicate BulkEnds(s: State, ids: seq<nat>, s': State, outcome: Outcome) {
    && s.counter <= s'.counter <= s.counter + |ids|
    && (outcome == Done || (outcome == CodeTooBig && s.counter + |ids| >= 10_000_000_000_000_000_000_000))
    && (forall i | i in s'.rows :: i in s.rows)
    && forall i | i in s.rows :: ObjectEnds(s, i, i in ids, s', outcome)
  }

  ghost predicate ObjectEnds(s: State, i: nat, listed: bool, s': State, outcome: Outcome)
    requires i in s.rows
  {
    if !listed || (!s.rows[i].isDeleted && s.rows[i].userCode == Some("-")) then i in s'.rows && s'.rows[i] == s.rows[i]
    else if s.rows[i].isDeleted then i !in s'.rows
    else i in s'.rows && (DeletedSince(s.rows[i], s'.rows[i], s.counter) || (outcome != Done && s'.rows[i] == s.rows[i]))
  }

  lemma OneDeleteEnds(s: State, id: nat)
    requires Sound(s) && id in s.rows
    ensures var (s', outcome) := SoftOrHardDeleted(s, id);
            Sound(s') && BulkEnds(s, [id], s', outcome)
  {
    DestroyExactly(s, id);
    SoftDeleteSound(s, id);
    var (s', outcome) := SoftOrHardDeleted(s, id);
    var r := s.rows[id];
    if !r.isDeleted && r.userCode != Some(DASH) && outcome == Done {
      DelCodeNonEmpty(s.counter + 1);
      DeletedMeaning(r, DelCode(s.counter + 1));
      hide DelCode, Deleted;
      assert s'.rows[id] == Deleted(r, DelCode(s.counter + 1));
      assert DeletedSince(r, s'.rows[id], s.counter);
    }
    hide Sound, DelCode, Deleted, IsFuture, DeletedSince, SoftDeleted;
    assert forall i :: i in [id] <==> i == id;
  }

  lemma BulkStep(s: State, ids: seq<nat>, s': State, o': Outcome, s'': State, o'': Outcome)
    requires ids != [] && ids[0] !in ids[1..] && ids[0] in s.rows
    requires BulkEnds(s, [ids[0]], s', o') && BulkEnds(s', ids[1..], s'', o'')
    ensures BulkEnds(s, ids, s'', if o'' == Done then o' else o'')
  {
    hide DelCode, Deleted;
    assert ids == [ids[0]] + ids[1..];
  }

  lemma NothingEnds(s: State)
    ensures BulkEnds(s, [], s, Done)
  {
  }

  /**
   A bulk delete of any existing objects: deleted ones go for good whatever else is refused, live ones
   are soft-deleted, the dash object and all others stay, and only an exhausted counter is reported.
   */
  lemma {:induction false} BulkDeleteExactly(s: State, ids: seq<nat>)
    requires Sound(s) && NoneTwice(ids) && forall id | id in ids :: id in s.rows
    ensures var (s', outcome) := BulkDeleted(s, ids);
            Sound(s') && BulkEnds(s, ids, s', outcome)
    decreases |ids|
  {
    hide Sound, BulkEnds, SoftOrHardDeleted;
    if ids == [] {
      NothingEnds(s);
    } else {
      assert ids[0] in ids;
      OneDeleteEnds(s, ids[0]);
      var (s', o') := SoftOrHardDeleted(s, ids[0]);
      FirstIsNotLater(ids);
      OthersExist(s, ids, s', o');
      BulkDeleteExactly(s', ids[1..]);
      var (s'', o'') := BulkDeleted(s', ids[1..]);
      BulkStep(s, ids, s', o', s'', o'');
    }
  }

  lemma OthersExist(s: State, ids: seq<nat>, s': State, outcome: Outcome)
    requires ids != [] && ids[0] !in ids[1..] && BulkEnds(s, [ids[0]], s', outcome)
    requires forall id | id in ids :: id in s.rows
    ensures forall id | id in ids[1..] :: id in s'.rows
  {
    hide DelCode, Deleted;
    forall id | id in ids[1..]
      ensures id in s'.rows
    {
      assert id in ids && id != ids[0];
      assert id in s.rows;
      assert ObjectEnds(s, id, id in [ids[0]], s', outcome);
    }
  }

  /** The guard of a bulk restore: what it refuses, it leaves as it was. */
  lemma GuardExactly(s: State, ids: seq<nat>)
    ensures var (s', outcome) := BulkRestored(s, ids);
            && (outcome == Conflict <==>
                  exists i, j | i in ids && i in s.rows && j in s.rows ::
                    s.rows[i].deletedUserCode.Some? && s.rows[j].userCode == s.rows[i].deletedUserCode)
            && (outcome == NotFound <==> outcome != Conflict && exists i | i in ids :: i !in s.rows)
            && (outcome == Conflict || outcome == NotFound ==> s' == s)
            && s'.counter == s.counter
  {
    if forall id | id in ids :: id in s.rows {
      RefusalsOnly(s.rows, ids);
    }
  }

  lemma {:induction false} RefusalsOnly(rows: Rows, ids: seq<nat>)
    requires forall id | id in ids :: id in rows
    ensures RestoredAll(rows, ids).1 == Done || RestoredAll(rows, ids).1 == IntegrityError
    decreases |ids|
  {
    if ids != [] {
      var (rows', outcome) := Write(rows, ids[0], Restored(rows[ids[0]]));
      if outcome == Done {
        RefusalsOnly(rows', ids[1..]);
      }
    }
  }

  /** A batch stops at the first object whose code is not free at its turn, and what came before stays restored. */
  lemma {:induction false} RestoredUpTo(rows: Rows, ids: seq<nat>) returns (k: nat)
    requires NoneTwice(ids) && forall i | 0 <= i < |ids| :: ids[i] in rows
    ensures k <= |ids| && (RestoredAll(rows, ids).1 == Done <==> k == |ids|)
    ensures IsRestoration(rows, ids[..k], RestoredAll(rows, ids).0)
    ensures forall i | 0 <= i < k :: FreeAt(rows, ids, i)
    ensures k < |ids| ==> !FreeAt(rows, ids, k)
    decreases |ids|
  {
    hide FreeAt, Taken, Restored;
    if ids == [] {
      k := 0;
    } else {
      FreeFirst(rows, ids);
      var (rows', outcome) := Write(rows, ids[0], Restored(rows[ids[0]]));
      if outcome == Done {
        var rest := ids[1..];
        var m := RestoredUpTo(rows', rest);
        k := m + 1;
        FirstIsNotLater(ids);
        forall i | 0 <= i < |rest|
          ensures FreeAt(rows', rest, i) <==> FreeAt(rows, ids, i + 1)
        {
          FreeLater(rows, ids, i);
        }
        forall i | 0 <= i < k
          ensures FreeAt(rows, ids, i)
        {
          assert i > 0 ==> FreeAt(rows', rest, i - 1);
        }
        assert ids[..k] == [ids[0]] + rest[..m] && ids[..k][0] == ids[0] && ids[..k][1..] == rest[..m];
        assert ids[0] !in rest[..m];
        RestorationStep(rows, ids[..k], RestoredAll(rows, ids).0);
      } else {
        k := 0;
        assert ids[..0] == [];
      }
    }
  }

  /** The database accepts the step, unless it creates, or restores anything but deleted objects with different codes. */
  ghost predicate NeverRefused(s: State, step: Step) {
    match step
    case Create(_, _, _, _) => true
    case BulkRestore(ids) => IsDeletedBatch(s.rows, ids) ==> Apply(s, step).1 != IntegrityError
    case _ => Apply(s, step).1 != IntegrityError
  }

  /** Every proper step keeps the codes sound, and only creates and irregular restores can be refused. */
  lemma StepSound(s: State, step: Step)
    requires Sound(s) && Proper(s, step)
    ensures Sound(Apply(s, step).0) && NeverRefused(s, step)
  {
    match step {
      case Create(id, userCode, name, shortName) =>
        CreateSound(s, id, userCode, name, shortName);
      case Destroy(id) =>
        if id in s.rows && s.rows[id].userCode != Some(DASH) && !s.rows[id].isDeleted {
          SoftDeleteSound(s, id);
        }
      case BulkDelete(ids) =>
        BulkDeleteSound(s, ids);
      case BulkRestore(ids) =>
        if !CodesInUse(s.rows, ids) && forall id | id in ids :: id in s.rows {
          BatchStepSound(s, ids);
        }
    }
  }

  lemma BatchStepSound(s: State, ids: seq<nat>)
    requires Sound(s) && Proper(s, BulkRestore(ids)) && !CodesInUse(s.rows, ids) && forall id | id in ids :: id in s.rows
    ensures Sound(s.(rows := RestoredAll(s.rows, ids).0))
    ensures IsDeletedBatch(s.rows, ids) ==> RestoredAll(s.rows, ids).1 == Done
  {
    hide IsFuture, Restored;
    forall id | id in ids
      ensures IsUsable(RestoredCode(s.rows[id]), s.counter)
    {
      if s.rows[id].isDeleted {
        DeletedIsUsable(s, id);
      }
    }
    RestoredAllSound(s, ids);
    if IsDeletedBatch(s.rows, ids) {
      RestoreBatchSound(s, ids);
    }
  }

  lemma CreateSound(s: State, id: nat, userCode: Option<string>, name: string, shortName: string)
    requires Sound(s) && Proper(s, Create(id, userCode, name, shortName))
    ensures Sound(Apply(s, Create(id, userCode, name, shortName)).0)
  {
    hide IsFuture;
    NoneIsNotFuture(s.counter);
  }

  lemma SoundIsUnique(s: State)
    ensures Sound(s) ==> UniqueCodes(s.rows)
  {
  }

  lemma EmptySound()
    ensures Sound(State(map[], 0))
  {
  }

  function Run(s: State, steps: seq<Step>): State {
    if steps == [] then s else Apply(Run(s, steps[..|steps| - 1]), steps[|steps| - 1]).0
  }

  ghost predicate ProperRun(s: State, steps: seq<Step>) {
    forall k | 0 <= k < |steps| :: Proper(Run(s, steps[..k]), steps[k])
  }

  /**
   Over every run of creates, deletes and guarded batch restores from an empty table: user codes stay
   pairwise distinct, and no delete, and no restore of deleted objects with different codes, is ever
   refused by the database. Batches may list live objects.
   */
  lemma {:induction false} RunKeepsCodesDistinct(steps: seq<Step>)
    requires ProperRun(State(map[], 0), steps)
    ensures Sound(Run(State(map[], 0), steps)) && UniqueCodes(Run(State(map[], 0), steps).rows)
    ensures forall k | 0 <= k < |steps| :: NeverRefused(Run(State(map[], 0), steps[..k]), steps[k])
    decreases |steps|
  {
    hide Sound, Proper, Apply, NeverRefused, UniqueCodes;
    var s := State(map[], 0);
    SoundIsUnique(Run(s, steps));
    EmptySound();
    if steps != [] {
      var init := steps[..|steps| - 1];
      assert forall k | 0 <= k < |init| :: init[k] == steps[k] && init[..k] == steps[..k];
      RunKeepsCodesDistinct(init);
      assert steps[..|init|] == init;
      StepSound(Run(s, init), steps[|steps| - 1]);
    }
  }
}
