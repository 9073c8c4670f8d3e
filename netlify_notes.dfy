/**
 * The Netlify `notes` function: its own `notes` array and `workingHours`
 * map, a request routed on its method and on the segments of its path, and
 * new note ids chosen as one more than the largest id in use.
 */
module NetlifyNotes {
  import opened Api
  import opened Text
  import opened NoteIds
  import opened Store

  /**
   * The routing of the handler: OPTIONS first; then segment 1 selects the
   * notes or the working-hours branch and the method selects the case; a
   * method a branch does not handle, or any other path, ends in 404.
   */
  function Route(httpMethod: string, segs: seq<string>): (a: Action)
    ensures a.Preflight? <==> httpMethod == "OPTIONS"
    ensures httpMethod != "OPTIONS" && SegmentAt(segs, 1) != Some("notes") && SegmentAt(segs, 1) != Some("working-hours") ==>
      a == Unrouted
    ensures httpMethod !in {"OPTIONS", "GET", "POST", "PUT", "DELETE"} ==> a == Unrouted
    ensures a.GetNote? || a.UpdateNote? || a.DeleteNote? ==> SegmentAt(segs, 2) == Some(a.id)
    ensures a.PutCell? ==> SegmentAt(segs, 2) == Some(a.person) && SegmentAt(segs, 3) == Some(a.day)
    ensures a.PutPerson? ==> SegmentAt(segs, 2) == Some(a.person) && SegmentAt(segs, 3) == None
    ensures a == NoteIdRequired <==> httpMethod == "PUT" && SegmentAt(segs, 1) == Some("notes") && SegmentAt(segs, 2) == None
    ensures a == ListNotes <==> httpMethod == "GET" && SegmentAt(segs, 1) == Some("notes") && SegmentAt(segs, 2) == None
    ensures a.GetNote? <==> httpMethod == "GET" && SegmentAt(segs, 1) == Some("notes") && SegmentAt(segs, 2).Some?
    ensures a == CreateNote <==> httpMethod == "POST" && SegmentAt(segs, 1) == Some("notes")
    ensures a.UpdateNote? <==> httpMethod == "PUT" && SegmentAt(segs, 1) == Some("notes") && SegmentAt(segs, 2).Some?
    ensures a.DeleteNote? <==> httpMethod == "DELETE" && SegmentAt(segs, 1) == Some("notes") && SegmentAt(segs, 2).Some?
    ensures a == ClearNotes <==> httpMethod == "DELETE" && SegmentAt(segs, 1) == Some("notes") && SegmentAt(segs, 2) == None
    ensures a == GetHours <==> httpMethod == "GET" && SegmentAt(segs, 1) == Some("working-hours")
    ensures a.PutCell? <==>
      httpMethod == "PUT" && SegmentAt(segs, 1) == Some("working-hours") && SegmentAt(segs, 2).Some? && SegmentAt(segs, 3).Some?
    ensures a.PutPerson? <==>
      httpMethod == "PUT" && SegmentAt(segs, 1) == Some("working-hours") && SegmentAt(segs, 2).Some? && SegmentAt(segs, 3).None?
    ensures (httpMethod == "POST" || httpMethod == "DELETE") && SegmentAt(segs, 1) == Some("working-hours") ==> a == Unrouted
  {
    if httpMethod == "OPTIONS" then Preflight
    else if SegmentAt(segs, 1) == Some("notes") then
      var noteId := SegmentAt(segs, 2);
      if httpMethod == "GET" then (if noteId.Some? then GetNote(noteId.value) else ListNotes)
      else if httpMethod == "POST" then CreateNote
      else if httpMethod == "PUT" then (if noteId.Some? then UpdateNote(noteId.value) else NoteIdRequired)
      else if httpMethod == "DELETE" then (if noteId.Some? then DeleteNote(noteId.value) else ClearNotes)
      else Unrouted
    else if SegmentAt(segs, 1) == Some("working-hours") then
      var person, day := SegmentAt(segs, 2), SegmentAt(segs, 3);
      if httpMethod == "GET" then GetHours
      else if httpMethod == "PUT" && person.Some? && day.Some? then PutCell(person.value, day.value)
      else if httpMethod == "PUT" && person.Some? then PutPerson(person.value)
      else Unrouted
    else Unrouted
  }

  /**
   * POST of a note: 400 for a missing or blank message; otherwise a note is
   * appended whose id is one more than the largest id (1 for no notes), so
   * it is larger than every id in use, with the trimmed message, the
   * current time and `priority || 'normal'`.
   */
  function CreateAfterMax(notes: seq<Note>, message: Option<string>, priority: Option<string>, now: Stamp): (out: NotesResult)
    ensures MissingText(message) ==> out == NotesResult(notes, Fail(400, "Message is required"))
    ensures !MissingText(message) ==>
      && |out.notes| == |notes| + 1
      && out.notes[..|notes|] == notes
      && var n := out.notes[|notes|];
        && (forall k :: 0 <= k < |notes| ==> notes[k].id < n.id)
        && (|notes| == 0 ==> n.id == 1)
        && (|notes| > 0 ==> HasId(notes, n.id - 1))
        && n.message == Trim(message.value)
        && n.timestamp == now
        && n.priority == PriorityOrDefault(priority)
        && out.reply == Reply(201, NoteItem(n))
    ensures ValidIds(notes) ==> ValidIds(out.notes)
  {
    if MissingText(message) then NotesResult(notes, Fail(400, "Message is required"))
    else
      var ids := IdsOf(notes);
      var n := Note(NextAfterMax(ids), Trim(message.value), now, PriorityOrDefault(priority));
      assert ids == IdsOf(notes);
      AppendKeepsValid(notes, n);
      assert AllPositive(ids) ==> n.id >= 1;
      assert |notes| > 0 ==> exists k :: 0 <= k < |notes| && ids[k] == n.id - 1;
      NotesResult(notes + [n], Reply(201, NoteItem(n)))
  }

  class NotesFunction {
    var notes: seq<Note>
    var workingHours: map<string, Person>

    /** Note ids are distinct positive integers. */
    ghost predicate Valid()
      reads this
    {
      ValidIds(notes)
    }

    /** A cold start: the welcome note and the two seeded people. */
    constructor (now: Stamp)
      ensures Valid()
      ensures notes == [Note(1, WelcomeMessage, now, DefaultPriority)]
      ensures workingHours == InitialHours()
    {
      notes := [Note(1, WelcomeMessage, now, DefaultPriority)];
      workingHours := InitialHours();
    }

    /**
     * One invocation of `handler`. A body that is absent or not JSON makes
     * every case that parses it answer 500 with nothing changed.
     */
    method Handle(httpMethod: string, path: string, body: RequestBody, now: Stamp) returns (r: Reply)
      requires Valid()
      modifies this
      ensures Valid()
      ensures var a := Route(httpMethod, Segments(path));
        a.ReadsBody() && !body.Json? ==>
          r == Fail(500, "Internal server error") && notes == old(notes) && workingHours == old(workingHours)
      ensures var a := Route(httpMethod, Segments(path));
        match a
        case Preflight => r == Reply(200, NoBody) && notes == old(notes) && workingHours == old(workingHours)
        case Unrouted => r == Fail(404, "Not found") && notes == old(notes) && workingHours == old(workingHours)
        case ListNotes => r == Ok(NoteList(notes)) && notes == old(notes) && workingHours == old(workingHours)
        case GetNote(id) => r == FindById(notes, ParseInt(id)) && notes == old(notes) && workingHours == old(workingHours)
        case NoteIdRequired => r == Fail(400, "Note ID required") && notes == old(notes) && workingHours == old(workingHours)
        case CreateNote =>
          workingHours == old(workingHours) &&
          (body.Json? ==> NotesResult(notes, r) == CreateAfterMax(old(notes), body.fields.message, body.fields.priority, now))
        case UpdateNote(id) =>
          workingHours == old(workingHours) &&
          (body.Json? ==> NotesResult(notes, r) == PatchById(old(notes), ParseInt(id), body.fields.message, body.fields.priority, now))
        case DeleteNote(id) =>
          workingHours == old(workingHours) && NotesResult(notes, r) == DeleteById(old(notes), ParseInt(id))
        case ClearNotes => notes == [] && workingHours == old(workingHours) && r == Ok(Message("All notes cleared"))
        case GetHours => r == Ok(HoursMap(workingHours)) && notes == old(notes) && workingHours == old(workingHours)
        case PutCell(person, day) =>
          notes == old(notes) &&
          (body.Json? ==> HoursResult(workingHours, r) == PatchCell(old(workingHours), person, day, body.fields.location, body.fields.hours))
        case PutPerson(person) =>
          notes == old(notes) &&
          (body.Json? ==> HoursResult(workingHours, r) == PutSchedule(old(workingHours), person, body.fields.schedule))
    {
      var a := Route(httpMethod, Segments(path));
      if a.ReadsBody() && !body.Json? {
        return Fail(500, "Internal server error");
      }
      match a
      case Preflight =>
        r := Reply(200, NoBody);
      case Unrouted =>
        r := Fail(404, "Not found");
      case ListNotes =>
        r := Ok(NoteList(notes));
      case GetNote(id) =>
        r := FindById(notes, ParseInt(id));
      case NoteIdRequired =>
        r := Fail(400, "Note ID required");
      case CreateNote =>
        var out := CreateAfterMax(notes, body.fields.message, body.fields.priority, now);
        notes, r := out.notes, out.reply;
      case UpdateNote(id) =>
        var out := PatchById(notes, ParseInt(id), body.fields.message, body.fields.priority, now);
        notes, r := out.notes, out.reply;
      case DeleteNote(id) =>
        var out := DeleteById(notes, ParseInt(id));
        notes, r := out.notes, out.reply;
      case ClearNotes =>
        notes, r := [], Ok(Message("All notes cleared"));
      case GetHours =>
        r := Ok(HoursMap(workingHours));
      case PutCell(person, day) =>
        var out := PatchCell(workingHours, person, day, body.fields.location, body.fields.hours);
        workingHours, r := out.hours, out.reply;
      case PutPerson(person) =>
        var out := PutSchedule(workingHours, person, body.fields.schedule);
        workingHours, r := out.hours, out.reply;
    }
  }
}
