/**
 * The Netlify `working-hours` function: its own `workingHours` map, with
 * the person and the day taken from path segments 2 and 3 whatever the
 * first two segments are.
 */
module NetlifyWorkingHours {
  import opened Api
  import opened Text
  import opened Store

  /**
   * The routing of the handler: OPTIONS first, every GET reads the map, a
   * PUT updates a cell when a person and a day segment are present and a
   * person otherwise; anything else ends in 404.
   */
  function Route(httpMethod: string, segs: seq<string>): (a: Action)
    ensures a in {Preflight, GetHours, Unrouted} || a.PutCell? || a.PutPerson?
    ensures a.Preflight? <==> httpMethod == "OPTIONS"
    ensures a.GetHours? <==> httpMethod == "GET"
    ensures a.PutCell? <==> httpMethod == "PUT" && |segs| >= 4
    ensures a.PutCell? ==> a.person == segs[2] && a.day == segs[3]
    ensures a.PutPerson? <==> httpMethod == "PUT" && |segs| == 3
    ensures a.PutPerson? ==> a.person == segs[2]
  {
    var person, day := SegmentAt(segs, 2), SegmentAt(segs, 3);
    if httpMethod == "OPTIONS" then Preflight
    else if httpMethod == "GET" then GetHours
    else if httpMethod == "PUT" && person.Some? && day.Some? then PutCell(person.value, day.value)
    else if httpMethod == "PUT" && person.Some? then PutPerson(person.value)
    else Unrouted
  }

  class HoursFunction {
    var workingHours: map<string, Person>

    /** A cold start: the two seeded people. */
    constructor ()
      ensures workingHours == InitialHours()
    {
      workingHours := InitialHours();
    }

    /**
     * One invocation of `handler`. Only a PUT parses the body, so only a PUT
     * answers 500 for a body that is absent or not JSON.
     */
    method Handle(httpMethod: string, path: string, body: RequestBody) returns (r: Reply)
      modifies this
      ensures var a := Route(httpMethod, Segments(path));
        a.ReadsBody() && !body.Json? ==> r == Fail(500, "Internal server error") && workingHours == old(workingHours)
      ensures var a := Route(httpMethod, Segments(path));
        match a
        case Preflight => r == Reply(200, NoBody) && workingHours == old(workingHours)
        case GetHours => r == Ok(HoursMap(workingHours)) && workingHours == old(workingHours)
        case PutCell(person, day) =>
          body.Json? ==> HoursResult(workingHours, r) == PatchCell(old(workingHours), person, day, body.fields.location, body.fields.hours)
        case PutPerson(person) =>
          body.Json? ==> HoursResult(workingHours, r) == PutSchedule(old(workingHours), person, body.fields.schedule)
        case _ => r == Fail(404, "Not found") && workingHours == old(workingHours)
    {
      var a := Route(httpMethod, Segments(path));
      if a.ReadsBody() && !body.Json? {
        return Fail(500, "Internal server error");
      }
      match a
      case Preflight =>
        r := Reply(200, NoBody);
      case GetHours =>
        r := Ok(HoursMap(workingHours));
      case PutCell(person, day) =>
        var out := PatchCell(workingHours, person, day, body.fields.location, body.fields.hours);
        workingHours, r := out.hours, out.reply;
      case PutPerson(person) =>
        var out := PutSchedule(workingHours, person, body.fields.schedule);
        workingHours, r := out.hours, out.reply;
      case _ =>
        r := Fail(404, "Not found");
    }
  }
}
