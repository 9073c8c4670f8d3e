/**
 * The records the note and schedule store keeps, the parsed request that
 * reaches a handler, and the reply a handler sends back.
 */
module Api {

  datatype Option<+T> = None | Some(value: T) {
    function GetOr(default: T): T {
      match this
      case Some(v) => v
      case None => default
    }
  }

  /** Timestamps are opaque: the store only ever replaces one with "now". */
  type Stamp = string

  /** A note as the in-memory stores and the `notes` table hold it. */
  datatype Note = Note(id: int, message: string, timestamp: Stamp, priority: string)

  /** One (person, day) cell of a schedule. */
  datatype DayEntry = DayEntry(location: string, hours: string)

  /** A person of the working-hours map: display name and day -> entry. */
  datatype Person = Person(name: string, schedule: map<string, DayEntry>)

  /** A row of the `working_hours` table, unique on (person, day). */
  datatype HoursRow = HoursRow(person: string, day: string, location: string, hours: string)

  /** A row of the `presets` table; a NULL priority is `None`. */
  datatype PresetRow = PresetRow(id: int, text: string, priority: Option<string>, createdAt: Stamp, updatedAt: Stamp)

  /**
   * The fields a handler destructures from a parsed JSON body; `None` is a
   * field that is absent (undefined).
   */
  datatype Fields = Fields(
    message: Option<string>,
    priority: Option<string>,
    text: Option<string>,
    location: Option<string>,
    hours: Option<string>,
    schedule: Option<map<string, DayEntry>>)

  /** The raw request body: none at all, text that is not JSON, or a parsed object. */
  datatype RequestBody = Absent | Invalid | Json(fields: Fields)

  datatype Payload =
    | NoBody
    | Error(error: string)
    | Message(message: string)
    | NoteItem(note: Note)
    | NoteList(notes: seq<Note>)
    | HoursMap(people: map<string, Person>)
    | PersonItem(person: Person)
    | DayItem(entry: DayEntry)
    | PresetItem(preset: PresetRow)
    | PresetList(presets: seq<PresetRow>)

  /** An HTTP response: status code and JSON payload (headers are not modelled). */
  datatype Reply = Reply(status: int, payload: Payload)

  function Ok(p: Payload): Reply { Reply(200, p) }
  function Fail(status: int, error: string): Reply { Reply(status, Error(error)) }
}
