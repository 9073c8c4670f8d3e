/**
 * The `presets` function: validation and routing decide, from the method,
 * the path and the body alone, either a reply or one store operation; the
 * operation is then run against the SQL store.
 */
module Presets {
  import opened Api
  import opened Text
  import opened Store
  import opened Tables
  import opened Database

  const CollectionPath: string := "/.netlify/functions/presets"
  const ItemMarker: string := "/presets/"

  /** The fields of `{}`, the body used when the request has none. */
  const NoFields: Fields := Fields(None, None, None, None, None, None)

  /** What the handler does once validation is over. */
  datatype Decision =
    | Respond(reply: Reply)
    | ListAll
    | Fetch(id: int)
    | Create(text: string, priority: string)
    | Update(id: int, text: string, nullablePriority: Option<string>)
    | Remove(id: int)

  /** `parseInt(path.split('/').pop())`. */
  function PathId(path: string): Option<int> {
    ParseInt(LastSegment(path))
  }

  /** A request on one preset: GET, PUT or DELETE on a path containing "/presets/". */
  predicate OnItem(httpMethod: string, path: string) {
    (httpMethod == "GET" || httpMethod == "PUT" || httpMethod == "DELETE")
    && Contains(path, ItemMarker)
    && !(httpMethod == "GET" && path == CollectionPath)
  }

  /**
   * The validation chain of the handler, in its order: OPTIONS, then a
   * body that is not JSON, then the route; on a route by id a non-numeric
   * id before the text check; a missing or blank text on POST and PUT;
   * any other method and path is refused with 405.
   */
  function Decide(httpMethod: string, path: string, body: RequestBody): (d: Decision)
    ensures httpMethod == "OPTIONS" ==> d == Respond(Reply(200, NoBody))
    ensures httpMethod != "OPTIONS" && body.Invalid? ==> d == Respond(Fail(400, "Invalid JSON in request body"))
    ensures httpMethod != "OPTIONS" && !body.Invalid? && OnItem(httpMethod, path) && PathId(path).None? ==>
      d == Respond(Fail(400, "Invalid preset ID"))
    ensures d.Fetch? || d.Update? || d.Remove? ==>
      OnItem(httpMethod, path) && PathId(path) == Some(d.id) && !body.Invalid?
    ensures var f := if body.Json? then body.fields else NoFields;
      && (httpMethod == "POST" && path == CollectionPath && !body.Invalid? && MissingText(f.text) ==>
            d == Respond(Fail(400, "Text is required")))
      && (httpMethod == "PUT" && OnItem(httpMethod, path) && !body.Invalid? && PathId(path).Some? && MissingText(f.text) ==>
            d == Respond(Fail(400, "Text is required")))
      && (d.Create? ==>
            && httpMethod == "POST" && path == CollectionPath
            && !MissingText(f.text) && d.text == Trim(f.text.value) && d.text != ""
            && d.priority == f.priority.GetOr(DefaultPriority))
      && (d.Update? ==>
            && httpMethod == "PUT"
            && !MissingText(f.text) && d.text == Trim(f.text.value) && d.text != ""
            && d.nullablePriority == f.priority)
    ensures d == ListAll <==> httpMethod == "GET" && path == CollectionPath && !body.Invalid?
    ensures d.Fetch? <==> httpMethod == "GET" && OnItem(httpMethod, path) && !body.Invalid? && PathId(path).Some?
    ensures d.Remove? <==> httpMethod == "DELETE" && OnItem(httpMethod, path) && !body.Invalid? && PathId(path).Some?
    ensures var f := if body.Json? then body.fields else NoFields;
      && (d.Create? <==> httpMethod == "POST" && path == CollectionPath && !body.Invalid? && !MissingText(f.text))
      && (d.Update? <==> httpMethod == "PUT" && OnItem(httpMethod, path) && !body.Invalid? && PathId(path).Some? && !MissingText(f.text))
    ensures d == Respond(Fail(405, "Method not allowed")) <==>
      && httpMethod != "OPTIONS" && !body.Invalid?
      && !(httpMethod in {"GET", "POST"} && path == CollectionPath)
      && !OnItem(httpMethod, path)
    ensures d.Respond? ==> d.reply.status in {200, 400, 405}
    ensures d.Respond? && d.reply.status == 200 ==> httpMethod == "OPTIONS"
  {
    if httpMethod == "OPTIONS" then Respond(Reply(200, NoBody))
    else if body.Invalid? then Respond(Fail(400, "Invalid JSON in request body"))
    else
      var f := if body.Json? then body.fields else NoFields;
      if httpMethod == "GET" && path == CollectionPath then ListAll
      else if httpMethod == "GET" && Contains(path, ItemMarker) then
        if PathId(path).None? then Respond(Fail(400, "Invalid preset ID")) else Fetch(PathId(path).value)
      else if httpMethod == "POST" && path == CollectionPath then
        if MissingText(f.text) then Respond(Fail(400, "Text is required"))
        else Create(Trim(f.text.value), f.priority.GetOr(DefaultPriority))
      else if httpMethod == "PUT" && Contains(path, ItemMarker) then
        if PathId(path).None? then Respond(Fail(400, "Invalid preset ID"))
        else if MissingText(f.text) then Respond(Fail(400, "Text is required"))
        else Update(PathId(path).value, Trim(f.text.value), f.priority)
      else if httpMethod == "DELETE" && Contains(path, ItemMarker) then
        if PathId(path).None? then Respond(Fail(400, "Invalid preset ID")) else Remove(PathId(path).value)
      else Respond(Fail(405, "Method not allowed"))
  }

  /**
   * One invocation of the handler: a decided reply touches no table; the
   * chosen operation runs on the store, and a missing row is 404.
   */
  method Handle(db: Db, httpMethod: string, path: string, body: RequestBody, now: Stamp) returns (r: Reply)
    requires db.Valid()
    modifies db
    ensures db.Valid()
    ensures db.notes == old(db.notes) && db.workingHours == old(db.workingHours)
    ensures match Decide(httpMethod, path, body)
      case Respond(reply) =>
        r == reply && db.presets == old(db.presets) && db.presetSerial == old(db.presetSerial)
      case ListAll =>
        r == Ok(PresetList(db.presets)) && db.presets == old(db.presets) && db.presetSerial == old(db.presetSerial)
      case Fetch(id) =>
        && db.presets == old(db.presets) && db.presetSerial == old(db.presetSerial)
        && (PresetRowById(db.presets, id).None? ==> r == Fail(404, "Preset not found"))
        && (PresetRowById(db.presets, id).Some? ==> r == Ok(PresetItem(PresetRowById(db.presets, id).value)))
      case Create(text, priority) =>
        var row := PresetRow(old(db.presetSerial), text, Some(priority), now, now);
        && db.presets == old(db.presets) + [row] && db.presetSerial == old(db.presetSerial) + 1
        && r == Reply(201, PresetItem(row))
      case Update(id, text, priority) =>
        var was := PresetRowById(old(db.presets), id);
        && db.presets == PresetsUpdated(old(db.presets), id, text, priority, now)
        && db.presetSerial == old(db.presetSerial)
        && (was.None? ==> r == Fail(404, "Preset not found"))
        && (was.Some? ==> r == Ok(PresetItem(PresetRow(id, text, priority, was.value.createdAt, now))))
      case Remove(id) =>
        var was := PresetRowById(old(db.presets), id);
        && db.presets == PresetsWithout(old(db.presets), id)
        && db.presetSerial == old(db.presetSerial)
        && (was.None? ==> r == Fail(404, "Preset not found"))
        && (was.Some? ==> r == Ok(Message("Preset deleted successfully")))
  {
    match Decide(httpMethod, path, body)
    case Respond(reply) =>
      r := reply;
    case ListAll =>
      var rows := db.GetAllPresets();
      r := Ok(PresetList(rows));
    case Fetch(id) =>
      var row := db.GetPresetById(id);
      if row.None? {
        return Fail(404, "Preset not found");
      }
      r := Ok(PresetItem(row.value));
    case Create(text, priority) =>
      var row := db.CreatePreset(text, Some(priority), now);
      r := Reply(201, PresetItem(row));
    case Update(id, text, priority) =>
      var row := db.UpdatePreset(id, text, priority, now);
      if row.None? {
        return Fail(404, "Preset not found");
      }
      r := Ok(PresetItem(row.value));
    case Remove(id) =>
      var row := db.DeletePreset(id);
      if row.None? {
        return Fail(404, "Preset not found");
      }
      r := Ok(Message("Preset deleted successfully"));
  }
}
