/**
 * What the three in-memory stores (the Express server and the two Netlify
 * functions) share: the seeded data, note lookup by id, the partial updates
 * of a note and of a schedule cell, and the id invariant of the notes array.
 */
module Store {
  import opened Api
  import opened Text
  import opened NoteIds

  const WelcomeMessage: string := "Welcome to your vertical table display!"
  const DefaultPriority: string := "normal"
  const OfficeHours: string := "9:00 AM - 5:00 PM"

  /** The schedule every seeded person starts with. */
  function WeekInOffice(): map<string, DayEntry> {
    map[
      "monday" := DayEntry("Office", OfficeHours),
      "tuesday" := DayEntry("Office", OfficeHours),
      "wednesday" := DayEntry("Office", OfficeHours),
      "thursday" := DayEntry("Office", OfficeHours),
      "friday" := DayEntry("Work from Home", OfficeHours)]
  }

  /** The working-hours map each in-memory store starts with. */
  function InitialHours(): map<string, Person> {
    map["tim" := Person("Tim", WeekInOffice()), "ramzi" := Person("Ramzi", WeekInOffice())]
  }

  function IdsOf(notes: seq<Note>): (ids: seq<int>)
    ensures |ids| == |notes|
    ensures forall i :: 0 <= i < |notes| ==> ids[i] == notes[i].id
  {
    seq(|notes|, i requires 0 <= i < |notes| => notes[i].id)
  }

  /** The notes-array invariant: ids are distinct positive integers. */
  ghost predicate ValidIds(notes: seq<Note>) {
    Distinct(IdsOf(notes)) && AllPositive(IdsOf(notes))
  }

  /** Whether some note carries the id. */
  predicate HasId(notes: seq<Note>, id: int) {
    exists k :: 0 <= k < |notes| && notes[k].id == id
  }

  /**
   * `notes.findIndex(n => n.id === id)`: the first index whose id matches, or
   * -1; an id that parsed to NaN (`None`) matches nothing.
   */
  function IndexOfId(notes: seq<Note>, id: Option<int>): (i: int)
    ensures -1 <= i < |notes|
    ensures i == -1 <==> id.None? || !HasId(notes, id.value)
    ensures i >= 0 ==> notes[i].id == id.value
    ensures i >= 0 ==> forall k :: 0 <= k < i ==> notes[k].id != id.value
  {
    if id.None? then -1 else FirstIndexOf(notes, id.value)
  }

  function FirstIndexOf(notes: seq<Note>, id: int): (i: int)
    ensures -1 <= i < |notes|
    ensures i == -1 <==> !HasId(notes, id)
    ensures i >= 0 ==> notes[i].id == id && forall k :: 0 <= k < i ==> notes[k].id != id
  {
    if |notes| == 0 then -1
    else if notes[0].id == id then 0
    else
      var j := FirstIndexOf(notes[1..], id);
      assert forall k :: 1 <= k < |notes| ==> notes[k] == notes[1..][k - 1];
      assert HasId(notes, id) ==> HasId(notes[1..], id);
      if j == -1 then -1 else j + 1
  }

  /**
   * GET of one note: `notes.find(n => n.id === id)`, or 404 when no note
   * has that id (an id that is not a number never matches).
   */
  function FindById(notes: seq<Note>, id: Option<int>): (r: Reply)
    ensures id.None? || !HasId(notes, id.value) ==> r == Fail(404, "Note not found")
    ensures id.Some? && HasId(notes, id.value) ==>
      && r.status == 200 && r.payload.NoteItem?
      && r.payload.note in notes && r.payload.note.id == id.value
  {
    var i := IndexOfId(notes, id);
    if i == -1 then Fail(404, "Note not found") else Ok(NoteItem(notes[i]))
  }

  /**
   * A PUT on a note: a supplied message is stored trimmed, a supplied
   * priority as given, and the timestamp is always refreshed.
   */
  function PatchNote(n: Note, message: Option<string>, priority: Option<string>, now: Stamp): Note {
    n.(message := if message.Some? then Trim(message.value) else n.message,
       priority := priority.GetOr(n.priority),
       timestamp := now)
  }

  /** `priority || 'normal'` for a POST body. */
  function PriorityOrDefault(priority: Option<string>): (p: string)
    ensures p != ""
    ensures priority.Some? && priority.value != "" ==> p == priority.value
    ensures priority.None? || priority.value == "" ==> p == DefaultPriority
  {
    if priority.None? || priority.value == "" then DefaultPriority else priority.value
  }

  /** Appending a note whose id is fresh and positive keeps the invariant. */
  lemma AppendKeepsValid(notes: seq<Note>, n: Note)
    requires n.id !in IdsOf(notes)
    ensures ValidIds(notes) && n.id >= 1 ==> ValidIds(notes + [n])
  {
    assert IdsOf(notes + [n]) == IdsOf(notes) + [n.id];
  }

  /** Replacing a note by one with the same id leaves the id list as it was. */
  lemma ReplaceKeepsIds(notes: seq<Note>, i: int, n: Note)
    requires 0 <= i < |notes| && n.id == notes[i].id
    ensures IdsOf(notes[i := n]) == IdsOf(notes)
  {
  }

  /**
   * `notes.splice(i, 1)` under distinct ids: exactly the notes with another
   * id remain, and the invariant holds.
   */
  lemma {:induction false} RemoveAtKeepsOthers(notes: seq<Note>, i: int)
    requires 0 <= i < |notes|
    ensures var rest := notes[..i] + notes[i + 1..];
      ValidIds(notes) ==>
        && ValidIds(rest)
        && !HasId(rest, notes[i].id)
        && forall n :: n in rest <==> n in notes && n.id != notes[i].id
  {
    if ValidIds(notes) {
      var rest := notes[..i] + notes[i + 1..];
      RemoveAtIds(notes, i);
      forall k | 0 <= k < |rest| ensures rest[k].id != notes[i].id && rest[k] in notes {
        RemoveAtIndex(notes, i, k);
      }
      forall n | n in notes && n.id != notes[i].id ensures n in rest {
        var k :| 0 <= k < |notes| && notes[k] == n;
        assert k != i;
        if k < i { assert rest[k] == n; } else { assert rest[k - 1] == n; }
      }
    }
  }

  lemma RemoveAtIds(notes: seq<Note>, i: int)
    requires ValidIds(notes)
    requires 0 <= i < |notes|
    ensures ValidIds(notes[..i] + notes[i + 1..])
  {
    var ids := IdsOf(notes);
    assert IdsOf(notes[..i] + notes[i + 1..]) == ids[..i] + ids[i + 1..];
  }

  lemma RemoveAtIndex(notes: seq<Note>, i: int, k: int)
    requires ValidIds(notes)
    requires 0 <= i < |notes| && 0 <= k < |notes| - 1
    ensures var rest := notes[..i] + notes[i + 1..];
      rest[k] in notes && rest[k].id != notes[i].id
  {
    var rest := notes[..i] + notes[i + 1..];
    var ids := IdsOf(notes);
    if k < i {
      assert rest[k] == notes[k] && ids[k] != ids[i];
    } else {
      assert rest[k] == notes[k + 1] && ids[i] != ids[k + 1];
    }
  }

  /** A PUT on a schedule cell: supplied fields replace, absent ones stay. */
  function PatchDay(e: DayEntry, location: Option<string>, hours: Option<string>): DayEntry {
    DayEntry(location.GetOr(e.location), hours.GetOr(e.hours))
  }

  /**
   * Writes one existing (person, day) cell: no person or day is added, and
   * every other person and every other day of that person is untouched.
   */
  function SetDay(wh: map<string, Person>, person: string, day: string, e: DayEntry): (r: map<string, Person>)
    requires person in wh && day in wh[person].schedule
    ensures r.Keys == wh.Keys
    ensures forall p :: p in wh && p != person ==> r[p] == wh[p]
    ensures r[person].name == wh[person].name
    ensures r[person].schedule.Keys == wh[person].schedule.Keys
    ensures r[person].schedule[day] == e
    ensures forall d :: d in wh[person].schedule && d != day ==> r[person].schedule[d] == wh[person].schedule[d]
  {
    var p := wh[person];
    wh[person := p.(schedule := p.schedule[day := e])]
  }

  /** The notes array and the reply after a request on the notes. */
  datatype NotesResult = NotesResult(notes: seq<Note>, reply: Reply)

  /** The working-hours map and the reply after a request on it. */
  datatype HoursResult = HoursResult(hours: map<string, Person>, reply: Reply)

  /**
   * PUT on the note whose id is `id`: 404 with nothing changed for an
   * unknown id; otherwise a supplied message is stored trimmed, a supplied
   * priority as given, the timestamp is refreshed, and the id, every other
   * note and the order stay as they were.
   */
  function PatchById(notes: seq<Note>, id: Option<int>, message: Option<string>, priority: Option<string>, now: Stamp): (out: NotesResult)
    ensures IdsOf(out.notes) == IdsOf(notes)
    ensures IndexOfId(notes, id) == -1 ==> out == NotesResult(notes, Fail(404, "Note not found"))
    ensures var i := IndexOfId(notes, id);
      i >= 0 ==>
        && |out.notes| == |notes|
        && (forall k :: 0 <= k < |notes| && k != i ==> out.notes[k] == notes[k])
        && out.notes[i].id == notes[i].id
        && (message.Some? ==> out.notes[i].message == Trim(message.value))
        && (message.None? ==> out.notes[i].message == notes[i].message)
        && (priority.Some? ==> out.notes[i].priority == priority.value)
        && (priority.None? ==> out.notes[i].priority == notes[i].priority)
        && out.notes[i].timestamp == now
        && out.reply == Ok(NoteItem(out.notes[i]))
  {
    var i := IndexOfId(notes, id);
    if i == -1 then NotesResult(notes, Fail(404, "Note not found"))
    else
      var n := PatchNote(notes[i], message, priority, now);
      ReplaceKeepsIds(notes, i, n);
      NotesResult(notes[i := n], Ok(NoteItem(n)))
  }

  /**
   * DELETE of the note whose id is `id`: 404 with nothing changed for an
   * unknown id; otherwise that one note is spliced out, the others keep
   * their order, and under distinct ids no note with that id remains.
   */
  function DeleteById(notes: seq<Note>, id: Option<int>): (out: NotesResult)
    ensures IndexOfId(notes, id) == -1 ==> out == NotesResult(notes, Fail(404, "Note not found"))
    ensures var i := IndexOfId(notes, id);
      i >= 0 ==>
        && |out.notes| == |notes| - 1
        && out.notes == notes[..i] + notes[i + 1..]
        && out.reply == Ok(Message("Note deleted successfully"))
        && (ValidIds(notes) ==>
              && ValidIds(out.notes)
              && !HasId(out.notes, id.value)
              && forall n :: n in out.notes <==> n in notes && n.id != id.value)
  {
    var i := IndexOfId(notes, id);
    if i == -1 then NotesResult(notes, Fail(404, "Note not found"))
    else
      RemoveAtKeepsOthers(notes, i);
      NotesResult(notes[..i] + notes[i + 1..], Ok(Message("Note deleted successfully")))
  }

  /**
   * PUT on one (person, day) cell: 404 for an unknown person, then 404 for
   * an unknown day, with nothing created; otherwise a supplied location or
   * hours replaces that field of that one cell, which is sent back.
   */
  function PatchCell(wh: map<string, Person>, person: string, day: string, location: Option<string>, hours: Option<string>): (out: HoursResult)
    ensures person !in wh ==> out == HoursResult(wh, Fail(404, "Person not found"))
    ensures person in wh && day !in wh[person].schedule ==> out == HoursResult(wh, Fail(404, "Day not found"))
    ensures person in wh && day in wh[person].schedule ==>
      var was := wh[person].schedule[day];
      && out.hours.Keys == wh.Keys
      && (forall p :: p in wh && p != person ==> out.hours[p] == wh[p])
      && out.hours[person].name == wh[person].name
      && out.hours[person].schedule.Keys == wh[person].schedule.Keys
      && (forall d :: d in wh[person].schedule && d != day ==> out.hours[person].schedule[d] == wh[person].schedule[d])
      && var cell := out.hours[person].schedule[day];
        && (location.Some? ==> cell.location == location.value)
        && (location.None? ==> cell.location == was.location)
        && (hours.Some? ==> cell.hours == hours.value)
        && (hours.None? ==> cell.hours == was.hours)
        && out.reply == Ok(DayItem(cell))
  {
    if person !in wh then HoursResult(wh, Fail(404, "Person not found"))
    else if day !in wh[person].schedule then HoursResult(wh, Fail(404, "Day not found"))
    else
      var cell := PatchDay(wh[person].schedule[day], location, hours);
      HoursResult(SetDay(wh, person, day, cell), Ok(DayItem(cell)))
  }

  /**
   * PUT on a person: 404 for an unknown person; a truthy `schedule` (any
   * object) replaces the schedule, a missing one leaves it; the name and
   * every other person are kept and the person is sent back.
   */
  function PutSchedule(wh: map<string, Person>, person: string, schedule: Option<map<string, DayEntry>>): (out: HoursResult)
    ensures person !in wh ==> out == HoursResult(wh, Fail(404, "Person not found"))
    ensures person in wh ==>
      && out.hours.Keys == wh.Keys
      && (forall p :: p in wh && p != person ==> out.hours[p] == wh[p])
      && out.hours[person].name == wh[person].name
      && (schedule.Some? ==> out.hours[person].schedule == schedule.value)
      && (schedule.None? ==> out.hours[person] == wh[person])
      && out.reply == Ok(PersonItem(out.hours[person]))
  {
    if person !in wh then HoursResult(wh, Fail(404, "Person not found"))
    else
      var updated := if schedule.Some? then wh[person := wh[person].(schedule := schedule.value)] else wh;
      HoursResult(updated, Ok(PersonItem(updated[person])))
  }

  /**
   * What a Netlify handler decides to do with a request, from its method
   * and the path segments.
   */
  datatype Action =
    | Preflight
    | ListNotes
    | GetNote(id: string)
    | CreateNote
    | NoteIdRequired
    | UpdateNote(id: string)
    | DeleteNote(id: string)
    | ClearNotes
    | GetHours
    | PutCell(person: string, day: string)
    | PutPerson(person: string)
    | Unrouted
  {
    /** The actions that run `JSON.parse(body)`, and so fail with 500 on a bad body. */
    predicate ReadsBody() {
      CreateNote? || UpdateNote? || PutCell? || PutPerson?
    }
  }

  /** The k-th path segment, if there is one (segments are never empty). */
  function SegmentAt(segs: seq<string>, k: nat): Option<string> {
    if k < |segs| then Some(segs[k]) else None
  }
}
