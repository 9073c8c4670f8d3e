/**
 * The Express server: a `notes` array and a `workingHours` map held in
 * memory, with one method per route under /api.
 */
module ExpressServer {
  import opened Api
  import opened Text
  import opened NoteIds
  import opened Store

  class Server {
    var notes: seq<Note>
    var workingHours: map<string, Person>

    /** Note ids are distinct positive integers. */
    ghost predicate Valid()
      reads this
    {
      ValidIds(notes)
    }

    /** The process starts with the welcome note and the two seeded people. */
    constructor (now: Stamp)
      ensures Valid()
      ensures notes == [Note(1, WelcomeMessage, now, DefaultPriority)]
      ensures workingHours == InitialHours()
    {
      notes := [Note(1, WelcomeMessage, now, DefaultPriority)];
      workingHours := InitialHours();
    }

    /** GET /api/notes */
    method ListNotes() returns (r: Reply)
      ensures r == Ok(NoteList(notes))
    {
      r := Ok(NoteList(notes));
    }

    /** GET /api/notes/:id: the note whose id equals `parseInt(id)`, else 404. */
    method GetNote(idParam: string) returns (r: Reply)
      ensures r == FindById(notes, ParseInt(idParam))
    {
      r := FindById(notes, ParseInt(idParam));
    }

    /**
     * POST /api/notes: a missing or blank message is refused with 400;
     * otherwise a note with the lowest free id, the trimmed message, the
     * current time and `priority || 'normal'` is appended.
     */
    method Create(body: Fields, now: Stamp) returns (r: Reply)
      requires Valid()
      modifies this
      ensures Valid()
      ensures workingHours == old(workingHours)
      ensures MissingText(body.message) ==>
        r == Fail(400, "Message is required") && notes == old(notes)
      ensures !MissingText(body.message) ==>
        && |notes| == |old(notes)| + 1
        && notes[..|old(notes)|] == old(notes)
        && var n := notes[|old(notes)|];
          && IsLowestFree(IdsOf(old(notes)), n.id)
          && n.message == Trim(body.message.value)
          && n.timestamp == now
          && n.priority == PriorityOrDefault(body.priority)
          && r == Reply(201, NoteItem(n))
    {
      if MissingText(body.message) {
        return Fail(400, "Message is required");
      }
      var existingIds := SortAscending(IdsOf(notes));
      SortedForScan(IdsOf(notes));
      var newId := LowestFreeId(existingIds);
      var newNote := Note(newId, Trim(body.message.value), now, PriorityOrDefault(body.priority));
      AppendKeepsValid(notes, newNote);
      notes := notes + [newNote];
      r := Reply(201, NoteItem(newNote));
    }

    /**
     * PUT /api/notes/:id: 404 for an unknown id; otherwise only the supplied
     * fields change (the message trimmed) and the timestamp is refreshed.
     */
    method Update(idParam: string, body: Fields, now: Stamp) returns (r: Reply)
      requires Valid()
      modifies this
      ensures Valid()
      ensures workingHours == old(workingHours)
      ensures NotesResult(notes, r) == PatchById(old(notes), ParseInt(idParam), body.message, body.priority, now)
    {
      var out := PatchById(notes, ParseInt(idParam), body.message, body.priority, now);
      notes := out.notes;
      r := out.reply;
    }

    /**
     * DELETE /api/notes/:id: 404 for an unknown id; otherwise exactly that
     * note is removed and the others keep their order.
     */
    method Delete(idParam: string) returns (r: Reply)
      requires Valid()
      modifies this
      ensures Valid()
      ensures workingHours == old(workingHours)
      ensures NotesResult(notes, r) == DeleteById(old(notes), ParseInt(idParam))
    {
      var out := DeleteById(notes, ParseInt(idParam));
      notes := out.notes;
      r := out.reply;
    }

    /** DELETE /api/notes: always succeeds and empties the array. */
    method ClearAll() returns (r: Reply)
      modifies this
      ensures Valid()
      ensures notes == [] && workingHours == old(workingHours)
      ensures r == Ok(Message("All notes cleared"))
    {
      notes := [];
      r := Ok(Message("All notes cleared"));
    }

    /** GET /api/working-hours */
    method GetWorkingHours() returns (r: Reply)
      ensures r == Ok(HoursMap(workingHours))
    {
      r := Ok(HoursMap(workingHours));
    }

    /**
     * PUT /api/working-hours/:person: the key is lowercased; 404 for an
     * unknown person; a truthy `schedule` replaces that person's schedule.
     */
    method PutPerson(personParam: string, body: Fields) returns (r: Reply)
      modifies this
      ensures notes == old(notes)
      ensures HoursResult(workingHours, r) == PutSchedule(old(workingHours), LowerAscii(personParam), body.schedule)
    {
      var out := PutSchedule(workingHours, LowerAscii(personParam), body.schedule);
      workingHours := out.hours;
      r := out.reply;
    }

    /**
     * PUT /api/working-hours/:person/:day: both keys are lowercased; 404 for
     * an unknown person or day, with nothing created; otherwise the supplied
     * location/hours replace those of that one cell.
     */
    method PutPersonDay(personParam: string, dayParam: string, body: Fields) returns (r: Reply)
      modifies this
      ensures notes == old(notes)
      ensures HoursResult(workingHours, r) ==
        PatchCell(old(workingHours), LowerAscii(personParam), LowerAscii(dayParam), body.location, body.hours)
    {
      var out := PatchCell(workingHours, LowerAscii(personParam), LowerAscii(dayParam), body.location, body.hours);
      workingHours := out.hours;
      r := out.reply;
    }
  }

  function MessageBody(message: string): Fields {
    Fields(Some(message), None, None, None, None, None)
  }

  /** After clearing all notes the next note created gets id 1 again. */
  method ClearThenCreate(message: string, now: Stamp) returns (id: int)
    requires !MissingText(Some(message))
    ensures id == 1
  {
    var server := new Server(now);
    var r := server.ClearAll();
    r := server.Create(MessageBody(message), now);
    id := server.notes[0].id;
    assert id > 1 ==> 1 in IdsOf([]);
  }
}
