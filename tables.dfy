/**
 * The three tables of the SQL store seen as sequences of rows, and what
 * the queries of the store compute over them: selection by key, deletion
 * by key, the partial `UPDATE` of a note (the statement the store builds
 * and what running it does), the upsert key of `working_hours`, and the
 * grouping of `working_hours` rows into the person/schedule map.
 */
module Tables {
  import opened Api
  import opened Text
  import opened NoteIds
  import opened Store

  /** No two rows share a key (a PRIMARY KEY or UNIQUE constraint). */
  predicate UniqueBy<T, K(==)>(rows: seq<T>, key: T -> K) {
    forall i, j :: 0 <= i < j < |rows| ==> key(rows[i]) != key(rows[j])
  }

  /** The rows a `WHERE` clause keeps, in table order. */
  function Keep<T(!new)>(rows: seq<T>, keep: T -> bool): (r: seq<T>)
    ensures |r| <= |rows|
    ensures forall x :: x in r <==> x in rows && keep(x)
  {
    if |rows| == 0 then []
    else
      var rest := Keep(rows[1..], keep);
      assert forall x :: x in rows <==> x == rows[0] || x in rows[1..];
      if keep(rows[0]) then [rows[0]] + rest else rest
  }

  /** Deleting rows never breaks a key constraint. */
  lemma {:induction false} KeepUnique<T(!new), K>(rows: seq<T>, keep: T -> bool, key: T -> K)
    requires UniqueBy(rows, key)
    ensures UniqueBy(Keep(rows, keep), key)
  {
    if |rows| > 0 {
      var rest := Keep(rows[1..], keep);
      assert UniqueBy(rows[1..], key) by {
        forall i, j | 0 <= i < j < |rows| - 1 ensures key(rows[1..][i]) != key(rows[1..][j]) {
          assert rows[1..][i] == rows[i + 1] && rows[1..][j] == rows[j + 1];
        }
      }
      KeepUnique(rows[1..], keep, key);
      if keep(rows[0]) {
        forall k | 0 <= k < |rest| ensures key(rows[0]) != key(rest[k]) {
          assert rest[k] in rows[1..];
          var j :| 0 <= j < |rows| - 1 && rows[1..][j] == rest[k];
          assert rows[j + 1] == rest[k];
        }
        var r := [rows[0]] + rest;
        forall i, j | 0 <= i < j < |r| ensures key(r[i]) != key(r[j]) {
          if i == 0 {
            assert r[j] == rest[j - 1];
          } else {
            assert r[i] == rest[i - 1] && r[j] == rest[j - 1];
          }
        }
      }
    }
  }

  /** Appending a row whose key is new keeps a key constraint. */
  lemma AppendUnique<T, K>(rows: seq<T>, x: T, key: T -> K)
    requires UniqueBy(rows, key)
    requires forall i :: 0 <= i < |rows| ==> key(rows[i]) != key(x)
    ensures UniqueBy(rows + [x], key)
  {
    var r := rows + [x];
    forall i, j | 0 <= i < j < |r| ensures key(r[i]) != key(r[j]) {
      assert r[i] == rows[i];
      if j < |rows| { assert r[j] == rows[j]; }
    }
  }

  // ----- notes -----

  function NoteId(n: Note): int { n.id }

  /** The notes primary key in the terms of the in-memory stores. */
  lemma {:induction false} NoteKeyIsValidIds(notes: seq<Note>)
    ensures UniqueBy(notes, NoteId) <==> Distinct(IdsOf(notes))
  {
    var ids := IdsOf(notes);
    if UniqueBy(notes, NoteId) {
      forall i, j | 0 <= i < j < |ids| ensures ids[i] != ids[j] {
        assert NoteId(notes[i]) != NoteId(notes[j]);
      }
    }
    if Distinct(ids) {
      forall i, j | 0 <= i < j < |notes| ensures NoteId(notes[i]) != NoteId(notes[j]) {
        assert ids[i] != ids[j];
      }
    }
  }

  /** `SELECT * FROM notes WHERE id = $1`, first row. */
  function NoteRow(notes: seq<Note>, id: int): (r: Option<Note>)
    ensures r.None? <==> !HasId(notes, id)
    ensures r.Some? ==> r.value in notes && r.value.id == id
  {
    var i := FirstIndexOf(notes, id);
    if i == -1 then None else Some(notes[i])
  }

  /** `DELETE FROM notes WHERE id = $1`: every other row stays, in order. */
  function NotesWithout(notes: seq<Note>, id: int): (rest: seq<Note>)
    ensures forall n :: n in rest <==> n in notes && n.id != id
    ensures !HasId(rest, id)
    ensures ValidIds(notes) ==> ValidIds(rest)
  {
    var rest := Keep(notes, (n: Note) => n.id != id);
    assert !HasId(rest, id) by {
      forall k | 0 <= k < |rest| ensures rest[k].id != id {
        assert rest[k] in rest;
      }
    }
    NoteKeyIsValidIds(notes);
    NoteKeyIsValidIds(rest);
    KeepUniqueImplies(notes, (n: Note) => n.id != id, NoteId);
    assert AllPositive(IdsOf(notes)) ==> AllPositive(IdsOf(rest)) by {
      if AllPositive(IdsOf(notes)) {
        forall k | 0 <= k < |rest| ensures IdsOf(rest)[k] >= 1 {
          assert rest[k] in notes;
          var j :| 0 <= j < |notes| && notes[j] == rest[k];
          assert IdsOf(notes)[j] >= 1;
        }
      }
    }
    rest
  }

  /**
   * The partial update `updateNote` asks for: a supplied message or
   * priority is written as given (no trimming at this layer) and the
   * timestamp is refreshed.
   */
  function PatchRow(n: Note, message: Option<string>, priority: Option<string>, now: Stamp): Note {
    Note(n.id, message.GetOr(n.message), now, priority.GetOr(n.priority))
  }

  /** Every row carrying `id` patched, every other row as it was. */
  function PatchRows(notes: seq<Note>, id: int, message: Option<string>, priority: Option<string>, now: Stamp): (r: seq<Note>)
    ensures |r| == |notes|
    ensures forall k :: 0 <= k < |notes| && notes[k].id != id ==> r[k] == notes[k]
    ensures forall k :: 0 <= k < |notes| && notes[k].id == id ==> r[k] == PatchRow(notes[k], message, priority, now)
    ensures IdsOf(r) == IdsOf(notes)
  {
    seq(|notes|, k requires 0 <= k < |notes| =>
      if notes[k].id == id then PatchRow(notes[k], message, priority, now) else notes[k])
  }

  /** A value bound to a `$n` placeholder. */
  datatype SqlValue = Text(s: string) | Int(i: int)

  /** One `column = ...` of a `SET` list: a placeholder or `NOW()`. */
  datatype Assignment = Param(column: string, index: nat) | SetNow(column: string)

  /** `UPDATE notes SET <assignments> WHERE id = $<whereIndex>` with its bound values. */
  datatype UpdateStatement = UpdateStatement(assignments: seq<Assignment>, whereIndex: nat, values: seq<SqlValue>)

  /** The supplied fields of an update, as (column, value), message first. */
  function SuppliedFields(message: Option<string>, priority: Option<string>): (fields: seq<(string, string)>)
    ensures |fields| <= 2
    ensures |fields| == 0 <==> message.None? && priority.None?
  {
    (if message.Some? then [("message", message.value)] else [])
    + (if priority.Some? then [("priority", priority.value)] else [])
  }

  /**
   * The numbering `updateNote` must produce: with k supplied fields,
   * placeholders `$1..$k` in the order message, priority, bound to their
   * values, then `timestamp = NOW()`, and the id bound to `$k+1` as the
   * last of k+1 values.
   */
  predicate NumberedFor(st: UpdateStatement, id: int, message: Option<string>, priority: Option<string>) {
    var fields := SuppliedFields(message, priority);
    var k := |fields|;
    && |st.assignments| == k + 1
    && |st.values| == k + 1
    && st.whereIndex == k + 1
    && (forall i :: 0 <= i < k ==> st.assignments[i] == Param(fields[i].0, i + 1))
    && (forall i :: 0 <= i < k ==> st.values[i] == Text(fields[i].1))
    && st.assignments[k] == SetNow("timestamp")
    && st.values[k] == Int(id)
  }

  /** The value of placeholder `$p`, if the statement has one. */
  function Bind(values: seq<SqlValue>, p: nat): Option<SqlValue> {
    if 1 <= p <= |values| then Some(values[p - 1]) else None
  }

  /** An assignment the database accepts: a known text column bound to text, or the timestamp to `NOW()`. */
  predicate Accepted(a: Assignment, values: seq<SqlValue>) {
    match a
    case SetNow(c) => c == "timestamp"
    case Param(c, p) => (c == "message" || c == "priority") && Bind(values, p).Some? && Bind(values, p).value.Text?
  }

  function Apply(n: Note, a: Assignment, values: seq<SqlValue>, now: Stamp): Note
    requires Accepted(a, values)
  {
    match a
    case SetNow(_) => n.(timestamp := now)
    case Param(c, p) =>
      var v := Bind(values, p).value.s;
      if c == "message" then n.(message := v) else n.(priority := v)
  }

  /** The `SET` list applied left to right to one row. */
  function ApplyAll(n: Note, assignments: seq<Assignment>, values: seq<SqlValue>, now: Stamp): Note
    requires forall a :: a in assignments ==> Accepted(a, values)
    decreases |assignments|
  {
    if |assignments| == 0 then n
    else ApplyAll(Apply(n, assignments[0], values, now), assignments[1..], values, now)
  }

  /**
   * Running an `UPDATE ... RETURNING *` statement: `None` when the database
   * refuses it (an unknown column, a placeholder with no value or of the
   * wrong type); otherwise the new table, every row whose id equals the
   * `WHERE` value rewritten, and the first returned row.
   */
  function ExecUpdate(notes: seq<Note>, st: UpdateStatement, now: Stamp): (out: Option<(seq<Note>, Option<Note>)>)
    ensures out.Some? ==> |out.value.0| == |notes| && IdsOf(out.value.0) == IdsOf(notes)
  {
    var w := Bind(st.values, st.whereIndex);
    if w.None? || !w.value.Int? || exists a :: a in st.assignments && !Accepted(a, st.values) then None
    else
      var id := w.value.i;
      var rows := seq(|notes|, k requires 0 <= k < |notes| =>
        if notes[k].id == id then ApplyAll(notes[k], st.assignments, st.values, now) else notes[k]);
      assert forall k :: 0 <= k < |notes| ==> ApplyAll(notes[k], st.assignments, st.values, now).id == notes[k].id by {
        forall k | 0 <= k < |notes| ensures ApplyAll(notes[k], st.assignments, st.values, now).id == notes[k].id {
          ApplyAllKeepsId(notes[k], st.assignments, st.values, now);
        }
      }
      Some((rows, NoteRow(rows, id)))
  }

  lemma {:induction false} ApplyAllKeepsId(n: Note, assignments: seq<Assignment>, values: seq<SqlValue>, now: Stamp)
    requires forall a :: a in assignments ==> Accepted(a, values)
    ensures ApplyAll(n, assignments, values, now).id == n.id
    decreases |assignments|
  {
    if |assignments| > 0 {
      ApplyAllKeepsId(Apply(n, assignments[0], values, now), assignments[1..], values, now);
    }
  }

  /**
   * The statement numbered as `updateNote` numbers it does exactly the
   * intended partial update: every row with that id gets the supplied
   * fields and a fresh timestamp, every other row is untouched, and the
   * returned row is the updated one.
   */
  lemma {:induction false} NumberedUpdateIsPatch(notes: seq<Note>, st: UpdateStatement, id: int, message: Option<string>, priority: Option<string>, now: Stamp)
    requires NumberedFor(st, id, message, priority)
    ensures var rows := PatchRows(notes, id, message, priority, now);
      ExecUpdate(notes, st, now) == Some((rows, NoteRow(rows, id)))
  {
    var fields := SuppliedFields(message, priority);
    var k := |fields|;
    assert Bind(st.values, st.whereIndex) == Some(Int(id));
    forall a | a in st.assignments ensures Accepted(a, st.values) {
      var i :| 0 <= i < |st.assignments| && st.assignments[i] == a;
      if i < k {
        assert Bind(st.values, i + 1) == Some(Text(fields[i].1));
      }
    }
    var out := ExecUpdate(notes, st, now);
    var rows := PatchRows(notes, id, message, priority, now);
    assert out.Some?;
    forall k | 0 <= k < |notes| ensures out.value.0[k] == rows[k] {
      if notes[k].id == id {
        PatchBySupplied(notes[k], st, message, priority, now);
      }
    }
    assert out.value.0 == rows;
  }

  lemma PatchBySupplied(n: Note, st: UpdateStatement, message: Option<string>, priority: Option<string>, now: Stamp)
    requires forall a :: a in st.assignments ==> Accepted(a, st.values)
    requires var fields := SuppliedFields(message, priority);
      && |st.assignments| == |fields| + 1
      && |st.values| >= |fields|
      && (forall i :: 0 <= i < |fields| ==> st.assignments[i] == Param(fields[i].0, i + 1))
      && (forall i :: 0 <= i < |fields| ==> st.values[i] == Text(fields[i].1))
      && st.assignments[|fields|] == SetNow("timestamp")
    ensures ApplyAll(n, st.assignments, st.values, now) == PatchRow(n, message, priority, now)
  {
    var a, v := st.assignments, st.values;
    var k := |SuppliedFields(message, priority)|;
    var n1 := Apply(n, a[0], v, now);
    assert ApplyAll(n, a, v, now) == ApplyAll(n1, a[1..], v, now);
    if k == 0 {
      assert a[1..] == [];
    } else {
      var n2 := Apply(n1, a[1], v, now);
      assert ApplyAll(n1, a[1..], v, now) == ApplyAll(n2, a[2..], v, now);
      if k == 1 {
        assert a[2..] == [];
      } else {
        var n3 := Apply(n2, a[2], v, now);
        assert ApplyAll(n2, a[2..], v, now) == ApplyAll(n3, a[3..], v, now);
        assert a[3..] == [];
      }
    }
  }

  // ----- working_hours -----

  function CellKey(r: HoursRow): (string, string) { (r.person, r.day) }

  /** The row for (person, day), as `ON CONFLICT (person, day)` finds it; -1 for none. */
  function CellIndex(rows: seq<HoursRow>, person: string, day: string): (i: int)
    ensures -1 <= i < |rows|
    ensures i >= 0 ==> rows[i].person == person && rows[i].day == day
    ensures i == -1 ==> forall k :: 0 <= k < |rows| ==> CellKey(rows[k]) != (person, day)
  {
    if |rows| == 0 then -1
    else if rows[0].person == person && rows[0].day == day then 0
    else
      var j := CellIndex(rows[1..], person, day);
      assert forall k :: 1 <= k < |rows| ==> rows[k] == rows[1..][k - 1];
      if j == -1 then -1 else j + 1
  }

  /**
   * One person's schedule as `getPersonSchedule` builds it from that
   * person's rows: each row of the person sets `schedule[day]`, a later row
   * overriding an earlier one.
   */
  function ScheduleOf(rows: seq<HoursRow>, person: string): (m: map<string, DayEntry>)
    ensures forall d :: d in m <==> exists i :: 0 <= i < |rows| && rows[i].person == person && rows[i].day == d
    ensures forall d :: d in m ==>
      exists i :: 0 <= i < |rows| && rows[i].person == person && rows[i].day == d && m[d] == DayEntry(rows[i].location, rows[i].hours)
    decreases |rows|
  {
    if |rows| == 0 then map[]
    else
      var init := rows[..|rows| - 1];
      var last := rows[|rows| - 1];
      var m := ScheduleOf(init, person);
      assert forall i :: 0 <= i < |init| ==> init[i] == rows[i];
      if last.person == person then m[last.day := DayEntry(last.location, last.hours)] else m
  }

  /** Under (person, day) uniqueness every row of the person appears in its schedule. */
  lemma {:induction false} ScheduleHasEveryRow(rows: seq<HoursRow>, person: string, i: int)
    requires UniqueBy(rows, CellKey)
    requires 0 <= i < |rows| && rows[i].person == person
    ensures ScheduleOf(rows, person)[rows[i].day] == DayEntry(rows[i].location, rows[i].hours)
  {
    var m := ScheduleOf(rows, person);
    var d := rows[i].day;
    var j :| 0 <= j < |rows| && rows[j].person == person && rows[j].day == d && m[d] == DayEntry(rows[j].location, rows[j].hours);
    assert CellKey(rows[j]) == CellKey(rows[i]);
    assert j == i;
  }

  /** `charAt(0).toUpperCase() + slice(1)`: the display name of a person key. */
  function DisplayName(person: string): string {
    Capitalize(person)
  }

  /** Some row belongs to `person`. */
  predicate HasRowOf(rows: seq<HoursRow>, person: string) {
    exists i :: 0 <= i < |rows| && rows[i].person == person
  }

  lemma HasRowOfLast(rows: seq<HoursRow>, person: string)
    requires |rows| > 0
    ensures HasRowOf(rows, person) <==> HasRowOf(rows[..|rows| - 1], person) || rows[|rows| - 1].person == person
  {
    var init := rows[..|rows| - 1];
    if HasRowOf(rows, person) && rows[|rows| - 1].person != person {
      var i :| 0 <= i < |rows| && rows[i].person == person;
      assert init[i] == rows[i];
    }
    if HasRowOf(init, person) {
      var i :| 0 <= i < |init| && init[i].person == person;
      assert rows[i] == init[i];
    }
  }

  /**
   * The fold of `getAllWorkingHours`: the first row of a person creates
   * `{name, schedule: {}}`, every row then sets `schedule[day]`.
   */
  function Grouped(rows: seq<HoursRow>): (wh: map<string, Person>)
    ensures forall p :: p in wh <==> HasRowOf(rows, p)
    ensures forall p :: p in wh ==> wh[p].name == DisplayName(p)
    decreases |rows|
  {
    if |rows| == 0 then map[]
    else
      var init := rows[..|rows| - 1];
      var last := rows[|rows| - 1];
      var acc := Grouped(init);
      assert forall q :: HasRowOf(rows, q) <==> HasRowOf(init, q) || last.person == q by {
        forall q ensures HasRowOf(rows, q) <==> HasRowOf(init, q) || last.person == q {
          HasRowOfLast(rows, q);
        }
      }
      var p := if last.person in acc then acc[last.person] else Person(DisplayName(last.person), map[]);
      acc[last.person := p.(schedule := p.schedule[last.day := DayEntry(last.location, last.hours)])]
  }

  /**
   * The two read paths agree: the schedule `getAllWorkingHours` groups for
   * a person is the one `getPersonSchedule` builds for that person.
   */
  lemma {:induction false} GroupedIsScheduleOf(rows: seq<HoursRow>, p: string)
    requires p in Grouped(rows)
    ensures Grouped(rows)[p].schedule == ScheduleOf(rows, p)
    decreases |rows|
  {
    var init := rows[..|rows| - 1];
    var last := rows[|rows| - 1];
    assert forall i :: 0 <= i < |init| ==> init[i] == rows[i];
    if p in Grouped(init) {
      GroupedIsScheduleOf(init, p);
    } else {
      assert last.person == p;
      ScheduleOfAbsent(init, p);
    }
  }

  /** A person without rows has the empty schedule. */
  lemma ScheduleOfAbsent(rows: seq<HoursRow>, p: string)
    requires !HasRowOf(rows, p)
    ensures ScheduleOf(rows, p) == map[]
  {
    assert ScheduleOf(rows, p).Keys == {};
  }

  // ----- presets -----

  function PresetId(r: PresetRow): int { r.id }

  /** `SELECT * FROM presets WHERE id = $1`, first row. */
  function PresetRowById(presets: seq<PresetRow>, id: int): (r: Option<PresetRow>)
    ensures r.None? <==> forall k :: 0 <= k < |presets| ==> presets[k].id != id
    ensures r.Some? ==> r.value in presets && r.value.id == id
  {
    if |presets| == 0 then None
    else if presets[0].id == id then Some(presets[0])
    else
      assert forall k :: 1 <= k < |presets| ==> presets[k] == presets[1..][k - 1];
      PresetRowById(presets[1..], id)
  }

  /**
   * `UPDATE presets SET text = $1, priority = $2, updated_at = NOW() WHERE
   * id = $3`: an absent priority is bound as NULL.
   */
  function PresetsUpdated(presets: seq<PresetRow>, id: int, text: string, priority: Option<string>, now: Stamp): (r: seq<PresetRow>)
    ensures |r| == |presets|
    ensures forall k :: 0 <= k < |presets| && presets[k].id != id ==> r[k] == presets[k]
    ensures forall k :: 0 <= k < |presets| && presets[k].id == id ==>
      r[k] == PresetRow(id, text, priority, presets[k].createdAt, now)
  {
    seq(|presets|, k requires 0 <= k < |presets| =>
      if presets[k].id == id then presets[k].(text := text, priority := priority, updatedAt := now) else presets[k])
  }

  /** `DELETE FROM presets WHERE id = $1`. */
  function PresetsWithout(presets: seq<PresetRow>, id: int): (rest: seq<PresetRow>)
    ensures forall r :: r in rest <==> r in presets && r.id != id
    ensures UniqueBy(presets, PresetId) ==> UniqueBy(rest, PresetId)
  {
    KeepUniqueImplies(presets, (r: PresetRow) => r.id != id, PresetId);
    Keep(presets, (r: PresetRow) => r.id != id)
  }

  lemma KeepUniqueImplies<T(!new), K>(rows: seq<T>, keep: T -> bool, key: T -> K)
    ensures UniqueBy(rows, key) ==> UniqueBy(Keep(rows, keep), key)
  {
    if UniqueBy(rows, key) {
      KeepUnique(rows, keep, key);
    }
  }
}
