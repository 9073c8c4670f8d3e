/**
 * The SQL-backed store: the `notes`, `working_hours` and `presets` tables
 * held as sequences of rows, the `presets` id sequence, and one method per
 * exported store function. Each request runs on its own; the connection
 * pool and the SQL engine are not part of this model.
 */
module Database {
  import opened Api
  import opened Text
  import opened NoteIds
  import opened Store
  import opened Tables

  /** The rows `initializeDatabase` seeds into an empty `working_hours`. */
  function DefaultHourRows(): seq<HoursRow> {
    [ HoursRow("tim", "monday", "Office", OfficeHours),
      HoursRow("tim", "tuesday", "Office", OfficeHours),
      HoursRow("tim", "wednesday", "Office", OfficeHours),
      HoursRow("tim", "thursday", "Office", OfficeHours),
      HoursRow("tim", "friday", "Work from Home", OfficeHours),
      HoursRow("ramzi", "monday", "Office", OfficeHours),
      HoursRow("ramzi", "tuesday", "Office", OfficeHours),
      HoursRow("ramzi", "wednesday", "Office", OfficeHours),
      HoursRow("ramzi", "thursday", "Office", OfficeHours),
      HoursRow("ramzi", "friday", "Work from Home", OfficeHours) ]
  }

  /** The (text, priority) pairs `initializeDatabase` seeds into an empty `presets`. */
  function DefaultPresets(): seq<(string, string)> {
    [ ("System Maintenance in Progress", "high"),
      ("On lunch break back in an hour", "normal"),
      ("Come in", "normal"),
      ("in a meeting", "normal"),
      ("Focus time", "low") ]
  }

  /** The default rows satisfy the UNIQUE (person, day) constraint. */
  lemma DefaultRowsUnique()
    ensures UniqueBy(DefaultHourRows(), CellKey)
  {
    var rows := DefaultHourRows();
    forall i, j | 0 <= i < j < |rows| ensures CellKey(rows[i]) != CellKey(rows[j]) {
      assert i < 5 <= j ==> rows[i].person != rows[j].person;
      assert (i < j < 5 || 5 <= i < j) ==> rows[i].day != rows[j].day;
    }
  }

  class Db {
    var notes: seq<Note>
    var workingHours: seq<HoursRow>
    var presets: seq<PresetRow>
    /** The next value of the `presets` SERIAL sequence. */
    var presetSerial: int

    /**
     * The table constraints: note ids are distinct and positive, (person,
     * day) is unique, preset ids are distinct and below the next serial.
     */
    ghost predicate Valid()
      reads this
    {
      && ValidIds(notes)
      && UniqueBy(workingHours, CellKey)
      && UniqueBy(presets, PresetId)
      && presetSerial >= 1
      && forall k :: 0 <= k < |presets| ==> 1 <= presets[k].id < presetSerial
    }

    /** `CREATE TABLE IF NOT EXISTS` on a fresh database: three empty tables. */
    constructor ()
      ensures Valid()
      ensures notes == [] && workingHours == [] && presets == [] && presetSerial == 1
    {
      notes, workingHours, presets, presetSerial := [], [], [], 1;
    }

    /**
     * `initializeDatabase`: each of `working_hours` and `presets` receives
     * its default rows only when it is empty; the notes table is never
     * seeded.
     */
    method InitializeDatabase(now: Stamp)
      requires Valid()
      modifies this
      ensures Valid()
      ensures notes == old(notes)
      ensures |old(workingHours)| == 0 ==> workingHours == DefaultHourRows()
      ensures |old(workingHours)| != 0 ==> workingHours == old(workingHours)
      ensures |old(presets)| == 0 ==>
        && |presets| == |DefaultPresets()|
        && presetSerial == old(presetSerial) + |DefaultPresets()|
        && forall k :: 0 <= k < |presets| ==>
             presets[k] == PresetRow(old(presetSerial) + k, DefaultPresets()[k].0, Some(DefaultPresets()[k].1), now, now)
      ensures |old(presets)| != 0 ==> presets == old(presets) && presetSerial == old(presetSerial)
    {
      if |workingHours| == 0 {
        var defaults := DefaultHourRows();
        DefaultRowsUnique();
        for i := 0 to |defaults|
          invariant workingHours == defaults[..i]
          invariant notes == old(notes) && presets == old(presets) && presetSerial == old(presetSerial)
        {
          workingHours := workingHours + [defaults[i]];
        }
        assert workingHours == defaults;
      }
      if |presets| == 0 {
        var defaults := DefaultPresets();
        ghost var serial0 := presetSerial;
        for i := 0 to |defaults|
          invariant Valid()
          invariant notes == old(notes) && workingHours == (if |old(workingHours)| == 0 then DefaultHourRows() else old(workingHours))
          invariant |presets| == i && presetSerial == serial0 + i
          invariant forall k :: 0 <= k < i ==> presets[k] == PresetRow(serial0 + k, defaults[k].0, Some(defaults[k].1), now, now)
        {
          var _ := CreatePreset(defaults[i].0, Some(defaults[i].1), now);
        }
      }
    }

    /** `getAllNotes`: every row (the `ORDER BY timestamp DESC` is not modelled). */
    method GetAllNotes() returns (rows: seq<Note>)
      ensures rows == notes
    {
      rows := notes;
    }

    /** `getNoteById`: the row with that id, or nothing. */
    method GetNoteById(id: int) returns (row: Option<Note>)
      ensures row == NoteRow(notes, id)
    {
      row := NoteRow(notes, id);
    }

    /**
     * `createNote`: the lowest positive id absent from the table (the scan
     * over `SELECT id FROM notes ORDER BY id`), the message as given, the
     * priority defaulting to "normal" when absent, the timestamp `NOW()`.
     */
    method CreateNote(message: string, priority: Option<string>, now: Stamp) returns (row: Note)
      requires Valid()
      modifies this
      ensures Valid()
      ensures workingHours == old(workingHours) && presets == old(presets) && presetSerial == old(presetSerial)
      ensures IsLowestFree(IdsOf(old(notes)), row.id)
      ensures row == Note(row.id, message, now, priority.GetOr(DefaultPriority))
      ensures notes == old(notes) + [row]
    {
      var existingIds := SortAscending(IdsOf(notes));
      SortedForScan(IdsOf(notes));
      var newId := LowestFreeId(existingIds);
      row := Note(newId, message, now, priority.GetOr(DefaultPriority));
      AppendKeepsValid(notes, row);
      notes := notes + [row];
    }

    /**
     * `updateNote`: with no field supplied the row is returned untouched (no
     * timestamp refresh); otherwise the numbered `UPDATE` is run, which
     * writes the supplied fields and `NOW()` into the row with that id.
     */
    method UpdateNote(id: int, message: Option<string>, priority: Option<string>, now: Stamp) returns (row: Option<Note>)
      requires Valid()
      modifies this
      ensures Valid()
      ensures workingHours == old(workingHours) && presets == old(presets) && presetSerial == old(presetSerial)
      ensures message.None? && priority.None? ==> notes == old(notes)
      ensures message.Some? || priority.Some? ==> notes == PatchRows(old(notes), id, message, priority, now)
      ensures row == NoteRow(notes, id)
    {
      var st := BuildNoteUpdate(id, message, priority);
      if st.None? {
        return NoteRow(notes, id);
      }
      NumberedUpdateIsPatch(notes, st.value, id, message, priority, now);
      var result := ExecUpdate(notes, st.value, now);
      notes, row := result.value.0, result.value.1;
    }

    /** `deleteNote`: the row with that id is removed and returned, or nothing. */
    method DeleteNote(id: int) returns (row: Option<Note>)
      requires Valid()
      modifies this
      ensures Valid()
      ensures workingHours == old(workingHours) && presets == old(presets) && presetSerial == old(presetSerial)
      ensures row == NoteRow(old(notes), id)
      ensures notes == NotesWithout(old(notes), id)
    {
      row := NoteRow(notes, id);
      notes := NotesWithout(notes, id);
    }

    /** `clearAllNotes`: the table is emptied. */
    method ClearAllNotes() returns (message: string)
      requires Valid()
      modifies this
      ensures Valid()
      ensures notes == []
      ensures workingHours == old(workingHours) && presets == old(presets) && presetSerial == old(presetSerial)
      ensures message == "All notes cleared"
    {
      notes := [];
      message := "All notes cleared";
    }

    /** `getAllWorkingHours`: the rows grouped into the person/schedule map. */
    method GetAllWorkingHours() returns (wh: map<string, Person>)
      ensures wh == Grouped(workingHours)
    {
      wh := Grouped(workingHours);
    }

    /** `getPersonSchedule`: the person's rows as a schedule, under the capitalised key. */
    method GetPersonSchedule(person: string) returns (p: Person)
      ensures p == Person(DisplayName(person), ScheduleOf(workingHours, person))
    {
      p := Person(DisplayName(person), ScheduleOf(workingHours, person));
    }

    /**
     * `updatePersonSchedule`: every row of the person is deleted, then one
     * row per schedule entry is inserted; other persons' rows are untouched
     * and the person read back has exactly the given schedule.
     */
    method UpdatePersonSchedule(person: string, schedule: map<string, DayEntry>) returns (p: Person)
      requires Valid()
      modifies this
      ensures Valid()
      ensures notes == old(notes) && presets == old(presets) && presetSerial == old(presetSerial)
      ensures forall r: HoursRow :: r.person != person ==> (r in workingHours <==> r in old(workingHours))
      ensures forall r :: r in workingHours && r.person == person ==>
        r.day in schedule && schedule[r.day] == DayEntry(r.location, r.hours)
      ensures forall d :: d in schedule ==>
        HoursRow(person, d, schedule[d].location, schedule[d].hours) in workingHours
      ensures p.name == DisplayName(person) && p.schedule == schedule
    {
      KeepUnique(workingHours, (r: HoursRow) => r.person != person, CellKey);
      workingHours := Keep(workingHours, (r: HoursRow) => r.person != person);
      var days := schedule.Keys;
      while days != {}
        invariant days <= schedule.Keys
        invariant Valid()
        invariant notes == old(notes) && presets == old(presets) && presetSerial == old(presetSerial)
        invariant forall r: HoursRow :: r.person != person ==> (r in workingHours <==> r in old(workingHours))
        invariant forall r :: r in workingHours && r.person == person ==>
          r.day in schedule && r.day !in days && schedule[r.day] == DayEntry(r.location, r.hours)
        invariant forall d :: d in schedule && d !in days ==>
          HoursRow(person, d, schedule[d].location, schedule[d].hours) in workingHours
        decreases days
      {
        var d :| d in days;
        var row := HoursRow(person, d, schedule[d].location, schedule[d].hours);
        forall k | 0 <= k < |workingHours| ensures CellKey(workingHours[k]) != CellKey(row) {
          assert workingHours[k] in workingHours;
        }
        AppendUnique(workingHours, row, CellKey);
        workingHours := workingHours + [row];
        days := days - {d};
      }
      p := GetPersonSchedule(person);
      ScheduleMatches(workingHours, person, schedule);
    }

    /**
     * `updatePersonDay`, an upsert on (person, day): afterwards exactly one
     * row has that key and it carries the given location and hours; every
     * row with another key is kept.
     */
    method UpdatePersonDay(person: string, day: string, location: string, hours: string) returns (row: HoursRow)
      requires Valid()
      modifies this
      ensures Valid()
      ensures notes == old(notes) && presets == old(presets) && presetSerial == old(presetSerial)
      ensures row == HoursRow(person, day, location, hours) && row in workingHours
      ensures forall r :: r in workingHours && CellKey(r) == (person, day) ==> r == row
      ensures forall r :: CellKey(r) != (person, day) ==> (r in workingHours <==> r in old(workingHours))
    {
      row := HoursRow(person, day, location, hours);
      var i := CellIndex(workingHours, person, day);
      if i >= 0 {
        ghost var before := workingHours;
        workingHours := workingHours[i := row];
        assert workingHours[i] == row;
        forall r | CellKey(r) != (person, day) ensures r in workingHours <==> r in before {
          if r in before {
            var k :| 0 <= k < |before| && before[k] == r;
            assert k != i && workingHours[k] == r;
          }
        }
        forall r | r in workingHours && CellKey(r) == (person, day) ensures r == row {
          var k :| 0 <= k < |workingHours| && workingHours[k] == r;
          assert k != i ==> CellKey(before[k]) != CellKey(before[i]);
        }
        assert UniqueBy(workingHours, CellKey) by {
          forall a, b | 0 <= a < b < |workingHours| ensures CellKey(workingHours[a]) != CellKey(workingHours[b]) {
            assert CellKey(before[a]) != CellKey(before[b]);
          }
        }
      } else {
        AppendUnique(workingHours, row, CellKey);
        workingHours := workingHours + [row];
      }
    }

    /** `getAllPresets`: every row (the `ORDER BY created_at DESC` is not modelled). */
    method GetAllPresets() returns (rows: seq<PresetRow>)
      ensures rows == presets
    {
      rows := presets;
    }

    /** `getPresetById`: the row with that id, or nothing. */
    method GetPresetById(id: int) returns (row: Option<PresetRow>)
      ensures row == PresetRowById(presets, id)
    {
      row := PresetRowById(presets, id);
    }

    /**
     * `createPreset`: the next serial value as id, the priority defaulting
     * to "normal" when absent, both timestamps `NOW()`; the id is larger
     * than every id in the table.
     */
    method CreatePreset(text: string, priority: Option<string>, now: Stamp) returns (row: PresetRow)
      requires Valid()
      modifies this
      ensures Valid()
      ensures notes == old(notes) && workingHours == old(workingHours)
      ensures row == PresetRow(old(presetSerial), text, Some(priority.GetOr(DefaultPriority)), now, now)
      ensures forall k :: 0 <= k < |old(presets)| ==> old(presets)[k].id < row.id
      ensures presets == old(presets) + [row] && presetSerial == old(presetSerial) + 1
    {
      row := PresetRow(presetSerial, text, Some(priority.GetOr(DefaultPriority)), now, now);
      AppendUnique(presets, row, PresetId);
      presets := presets + [row];
      presetSerial := presetSerial + 1;
    }

    /**
     * `updatePreset`: text and priority (NULL when absent) are overwritten
     * and `updated_at` refreshed in the row with that id, which is
     * returned; nothing when there is no such row.
     */
    method UpdatePreset(id: int, text: string, priority: Option<string>, now: Stamp) returns (row: Option<PresetRow>)
      requires Valid()
      modifies this
      ensures Valid()
      ensures notes == old(notes) && workingHours == old(workingHours) && presetSerial == old(presetSerial)
      ensures presets == PresetsUpdated(old(presets), id, text, priority, now)
      ensures row.None? <==> PresetRowById(old(presets), id).None?
      ensures row.Some? ==> row.value == PresetRow(id, text, priority, PresetRowById(old(presets), id).value.createdAt, now)
    {
      ghost var before := presets;
      presets := PresetsUpdated(presets, id, text, priority, now);
      row := PresetRowById(presets, id);
      UpdatedPresetRow(before, id, text, priority, now);
      assert UniqueBy(presets, PresetId) by {
        forall a, b | 0 <= a < b < |presets| ensures PresetId(presets[a]) != PresetId(presets[b]) {
          assert PresetId(before[a]) != PresetId(before[b]);
        }
      }
    }

    /** `deletePreset`: the row with that id is removed and returned, or nothing. */
    method DeletePreset(id: int) returns (row: Option<PresetRow>)
      requires Valid()
      modifies this
      ensures Valid()
      ensures notes == old(notes) && workingHours == old(workingHours) && presetSerial == old(presetSerial)
      ensures row == PresetRowById(old(presets), id)
      ensures presets == PresetsWithout(old(presets), id)
    {
      row := PresetRowById(presets, id);
      presets := PresetsWithout(presets, id);
      forall k | 0 <= k < |presets| ensures 1 <= presets[k].id < presetSerial {
        assert presets[k] in presets;
      }
    }
  }

  /**
   * The `UPDATE notes` statement `updateNote` assembles, built as the
   * source builds it: a `SET` list and a value list grown field by field
   * with a running placeholder counter; nothing when no field is supplied.
   */
  method BuildNoteUpdate(id: int, message: Option<string>, priority: Option<string>) returns (st: Option<UpdateStatement>)
    ensures st.None? <==> message.None? && priority.None?
    ensures st.Some? ==> NumberedFor(st.value, id, message, priority)
  {
    var updates: seq<Assignment> := [];
    var values: seq<SqlValue> := [];
    var paramCount: nat := 1;
    if message.Some? {
      updates := updates + [Param("message", paramCount)];
      values := values + [Text(message.value)];
      paramCount := paramCount + 1;
    }
    if priority.Some? {
      updates := updates + [Param("priority", paramCount)];
      values := values + [Text(priority.value)];
      paramCount := paramCount + 1;
    }
    if |updates| == 0 {
      return None;
    }
    updates := updates + [SetNow("timestamp")];
    values := values + [Int(id)];
    st := Some(UpdateStatement(updates, paramCount, values));
  }

  /** Rows matching a schedule exactly give back that schedule. */
  lemma ScheduleMatches(rows: seq<HoursRow>, person: string, schedule: map<string, DayEntry>)
    requires forall r :: r in rows && r.person == person ==>
      r.day in schedule && schedule[r.day] == DayEntry(r.location, r.hours)
    requires forall d :: d in schedule ==> HoursRow(person, d, schedule[d].location, schedule[d].hours) in rows
    ensures ScheduleOf(rows, person) == schedule
  {
    var m := ScheduleOf(rows, person);
    forall d | d in schedule ensures d in m {
      ScheduleHasDay(rows, person, d, schedule[d]);
    }
    forall d | d in m ensures d in schedule && m[d] == schedule[d] {
      ScheduleEntryFromRow(rows, person, d);
    }
    assert m.Keys == schedule.Keys;
  }

  lemma ScheduleHasDay(rows: seq<HoursRow>, person: string, d: string, e: DayEntry)
    requires HoursRow(person, d, e.location, e.hours) in rows
    ensures d in ScheduleOf(rows, person)
  {
    var i :| 0 <= i < |rows| && rows[i] == HoursRow(person, d, e.location, e.hours);
    assert rows[i].person == person && rows[i].day == d;
  }

  lemma ScheduleEntryFromRow(rows: seq<HoursRow>, person: string, d: string)
    requires d in ScheduleOf(rows, person)
    ensures exists r :: r in rows && r.person == person && r.day == d && ScheduleOf(rows, person)[d] == DayEntry(r.location, r.hours)
  {
    var m := ScheduleOf(rows, person);
    var i :| 0 <= i < |rows| && rows[i].person == person && rows[i].day == d && m[d] == DayEntry(rows[i].location, rows[i].hours);
    assert rows[i] in rows;
  }

  lemma UpdatedPresetRow(presets: seq<PresetRow>, id: int, text: string, priority: Option<string>, now: Stamp)
    requires UniqueBy(presets, PresetId)
    ensures var after := PresetsUpdated(presets, id, text, priority, now);
      && (PresetRowById(after, id).None? <==> PresetRowById(presets, id).None?)
      && (PresetRowById(after, id).Some? ==>
            PresetRowById(after, id).value == PresetRow(id, text, priority, PresetRowById(presets, id).value.createdAt, now))
  {
    var after := PresetsUpdated(presets, id, text, priority, now);
    var r := PresetRowById(after, id);
    if r.Some? {
      var k :| 0 <= k < |after| && after[k] == r.value;
      var old_ := PresetRowById(presets, id);
      assert presets[k].id == id;
      var j :| 0 <= j < |presets| && presets[j] == old_.value;
      assert PresetId(presets[j]) == PresetId(presets[k]);
      assert j == k;
    } else {
      assert forall k :: 0 <= k < |presets| ==> presets[k].id != id by {
        forall k | 0 <= k < |presets| ensures presets[k].id != id {
          assert after[k].id != id;
        }
      }
    }
  }
}
