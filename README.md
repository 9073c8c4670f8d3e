# tableDisplay note and schedule store, in Dafny

tableDisplay is a table-top display for short notes ("in a meeting", "back
in an hour") and the working-hours schedule of a small team, together with
an admin page that edits both. This project models the store behind its
HTTP API and proves properties of that model.

The store exists in three versions:

- **The Express server** (`ExpressServer`). A `notes` array and a
  `workingHours` map live in memory. A new note gets the lowest positive id
  that is not in use. Partial updates always refresh the timestamp.
  Person/day updates answer 404 for an unknown key and never create one.
- **The Netlify in-memory functions** (`NetlifyNotes`, `NetlifyWorkingHours`).
  They hold the same data but route on the segments of the request path.
  New note ids are one more than the largest id. A body that does not
  parse gives 500.
- **The SQL store** (`Tables`, `Database`). Its `notes`, `working_hours`
  and `presets` tables are sequences of rows. The model covers the
  gap-filling id scan and the numbered partial `UPDATE` that `updateNote`
  assembles. It also covers the (person, day) upsert, the replacement of a
  person's schedule, the grouping of rows into the person/schedule map and
  the seeding of empty tables. On top of it sits the `presets` function
  (`Presets`), a decision function from method, path and body followed by
  one store operation.

Two pure helpers of the display page are also modelled (`Display`):

- the relative time label under each note;
- the choice of the person shown by the rotating schedule panel, with the
  fallbacks for their name and days.

The shared pieces:

- `Api` holds the records, request bodies and replies.
- `Text` holds the JavaScript string operations the handlers rely on: `trim`,
  `toLowerCase`, `split`/`filter(Boolean)`, `split('/').pop()`, `includes`
  and `parseInt`.
- `NoteIds` holds the two note-id policies and their comparison.
- `Store` holds what the in-memory stores share, as transition functions
  from the old state to the new state and the reply.

Each class method that changes state is tied by its `ensures` to one of
these functions. The functions state what the source promises: 404 with
nothing changed, only the supplied fields changed, every other entry
untouched, and the id invariant kept.

Where the intended behaviour and the code disagree, the model follows the
code:

- The Netlify `notes` function gives new notes one more than the largest
  id, not the lowest free id.
- Preset ids come from the `SERIAL` sequence and are never reused.
- A body that fails to parse gives 500 in the two in-memory Netlify
  functions, not 400.
- `updateNote` with no field supplied does not refresh the timestamp.
- The in-memory stores answer 404 for an unknown person or day instead of
  upserting.

## Model

| member | source | states |
|---|---|---|
| ExpressServer.Server.constructor | server.js:16-47 | The process starts with the welcome note (id 1, priority "normal") and the two seeded people, and the id invariant holds. |
| ExpressServer.Server.ListNotes | server.js:51-53 | GET of all notes returns the array as it is. |
| ExpressServer.Server.GetNote | server.js:56-65 | GET by id answers as `FindById` on `parseInt` of the parameter. |
| Store.FindById | server.js:57-64 | 404 "Note not found" when the id is NaN or absent. Otherwise 200 with a note from the array that carries that id. |
| Store.IndexOfId | server.js:102-105 | `findIndex`: -1 exactly when the id is NaN or absent. Otherwise the first index holding that id. |
| ExpressServer.Server.Create | server.js:68-95 | A missing or blank message gives 400 with nothing changed. Otherwise one note is appended and existing notes are unchanged. Its id is the lowest free id, its message is trimmed, its time is now and its priority is `priority \|\| 'normal'`. Status 201 and the id invariant kept. |
| Text.TrimBlank | server.js:71 | `trim()` yields "" exactly when the string is all white space. |
| Text.Trim | server.js:88 | The trimmed text starts and ends with a non-space character. It is "" exactly for a blank input, and a string without outer white space is unchanged. |
| Text.TrimIsSlice | server.js:88 | What `trim` keeps is a slice of the string with only white space before and after it. |
| Text.SliceBetweenBlanks | server.js:88 | Dropping white space from the start and then from the end leaves a slice of the string with only white space around it. |
| Store.PriorityOrDefault | server.js:90 | `priority \|\| 'normal'`: an absent or empty priority becomes "normal", and a non-empty priority is kept. |
| NoteIds.SortAscending | server.js:76 | `sort((a, b) => a - b)` yields an ascending permutation of the ids. |
| NoteIds.Insert | server.js:76 | Insertion keeps the sequence ascending, adds exactly one occurrence of the element, and introduces no other value. |
| NoteIds.PermutationKeepsDistinct | server.js:76 | Sorting keeps distinct ids distinct. |
| NoteIds.SortedForScan | server.js:76-84 | The sorted ids are ascending, distinct and positive, and have the same lowest free id as the unsorted ones. |
| NoteIds.LowestFreeId | server.js:76-84 | The for/break scan returns a candidate that is at least 1 with every smaller positive id taken. Over ascending, distinct, positive ids that candidate is the lowest free id. |
| Store.AppendKeepsValid | server.js:93 | Pushing a note with a fresh positive id keeps ids distinct and positive. |
| ExpressServer.Server.Update | server.js:98-117 | The new array and the reply are `PatchById` of the old array, and the id invariant is kept. |
| Store.PatchById | server.js:102-116 | Unknown id: 404 with nothing changed. Otherwise in the matched note only the supplied fields change (the message trimmed) and the timestamp is refreshed. The id, the length and every other note are unchanged, and the reply is the updated note. |
| Store.ReplaceKeepsIds | server.js:109-114 | Editing a note's fields in place leaves the ids as they were. |
| ExpressServer.Server.Delete | server.js:120-130 | The new array and the reply are `DeleteById` of the old array, and the id invariant is kept. |
| Store.DeleteById | server.js:122-129 | Unknown id: 404 with nothing changed. Otherwise the splice removes exactly that note and keeps the order of the rest. The reply is "Note deleted successfully", no note with that id remains, and the id invariant is kept. |
| Store.RemoveAtKeepsOthers | server.js:128 | `splice(i, 1)` over distinct ids keeps exactly the notes with another id and keeps the invariant. |
| ExpressServer.Server.ClearAll | server.js:133-136 | Clear-all empties the array and answers "All notes cleared". |
| ExpressServer.ClearThenCreate | server.js:133-136 | After clearing all notes, the next note created gets id 1. |
| NoteIds.DeletedIdIsReused | server.js:76-84 | When positive ids have no gap, deleting any one of them makes that id the next id the scan hands out. |
| ExpressServer.Server.GetWorkingHours | server.js:140-142 | GET returns the whole working-hours map. |
| ExpressServer.Server.PutPerson | server.js:145-158 | The person key is lowercased, and the map and the reply are `PutSchedule` of the old map. |
| Store.PutSchedule | server.js:149-157 | Unknown person: 404 with nothing changed. A supplied schedule replaces that person's schedule. Without one the person is unchanged. The name and every other person are kept and the person is returned. |
| ExpressServer.Server.PutPersonDay | server.js:161-182 | Both keys are lowercased, and the map and the reply are `PatchCell` of the old map. |
| Store.PatchCell | server.js:166-181 | 404 "Person not found" comes before 404 "Day not found", and neither creates anything. Otherwise only the supplied location/hours of that one cell change. Every other day and person and the set of keys are kept, and the cell is returned. |
| Store.SetDay | server.js:174-179 | Writing one existing cell adds no person or day and leaves every other cell untouched. |
| Text.LowerAscii | server.js:146 | `toLowerCase` keeps the length and every character that is not an upper-case letter, and maps each upper-case letter to its lower-case form. |
| Text.ParseIntReadsDecimal | server.js:57 | `parseInt` reads back a decimal count followed by any text that does not continue the number. |
| Text.ParseDecimalStart | server.js:57 | A string starting with a decimal digit (and no "0x") is read by `parseInt` in radix 10. |
| Text.DigitPrefixStops | server.js:57 | `parseInt` stops at the first character that is not a digit of the radix. |
| Text.DecimalValue | server.js:57 | The decimal rendering of a count reads back as that count. |
| NoteIds.MaxOf | netlify/functions/notes.js:76 | `Math.max(...ids)` is one of the ids and no id exceeds it. |
| NoteIds.NextAfterMax | netlify/functions/notes.js:76 | The max+1 id exceeds every id. It is 1 for no notes, is at least 1 over positive ids, and its predecessor is in use. |
| NoteIds.LowestFreeAgainstMaxPlusOne | netlify/functions/notes.js:76 | Comparing the two policies: the lowest free id never exceeds max+1, and they are equal exactly when no positive id below the maximum is missing. |
| NetlifyNotes.CreateAfterMax | netlify/functions/notes.js:70-82 | A missing or blank message gives 400 with nothing changed. Otherwise the new note is appended with an id greater than every id in use (1 for no notes). Its message is trimmed, its time is now, its priority is `priority \|\| 'normal'`, the status is 201 and the id invariant is kept. |
| NetlifyNotes.Route | netlify/functions/notes.js:49-155 | Each action is given by an iff on the method and the segments. OPTIONS is preflight. On "notes": GET lists the notes, or fetches by id when segment 2 is present. POST creates. PUT with an id updates, and without one is "Note ID required". DELETE with an id deletes, and without one clears all notes. On "working-hours": GET reads the map, and PUT updates a cell (person and day) or a person (person only). POST/DELETE there, any other segment 1 and any other method are routed to 404. |
| Text.Segments | netlify/functions/notes.js:38 | `split('/').filter(Boolean)`: every segment is non-empty and contains no '/', and the segments are exactly the non-empty pieces between slashes. |
| Text.NonEmpty | netlify/functions/notes.js:38 | `filter(Boolean)` keeps exactly the non-empty strings, and a list without empty strings unchanged. |
| Text.NonEmptyAppend | netlify/functions/notes.js:38 | Filtering a concatenation is the concatenation of the filtered halves, so the order is kept. |
| Text.SegmentsOfJoin | netlify/functions/notes.js:38 | A path written as any slash-free pieces joined by '/' (empty pieces included, as a leading, doubled or trailing slash gives) has exactly its non-empty pieces, in order, as segments. |
| Text.JoinAppend | netlify/functions/notes.js:38 | Joining one more piece appends the separator and that piece. |
| Text.SegmentsTrailingSlash | netlify/functions/notes.js:38 | A trailing slash does not change the segments of a path. |
| Text.SegmentsOfPath | netlify/functions/notes.js:38 | The canonical path "/s1/.../sk" of non-empty, slash-free segments splits back into those segments. |
| Text.JoinSplit | netlify/functions/notes.js:38 | Joining the pieces of `split` with the separator gives back the string. |
| Text.SplitJoin | netlify/functions/notes.js:38 | Splitting a join of separator-free pieces gives back the pieces. |
| NetlifyNotes.NotesFunction.constructor | netlify/functions/notes.js:4-34 | A cold start holds the welcome note and the two seeded people. |
| NetlifyNotes.NotesFunction.Handle | netlify/functions/notes.js:36-161 | A case that parses the body answers 500 with nothing changed when the body is absent or not JSON. Each route otherwise answers as its store function: `FindById`, `CreateAfterMax`, `PatchById`, `DeleteById`, `PatchCell` or `PutSchedule` (keys not lowercased). Clear-all empties the notes, and every read or refusal changes nothing. |
| NetlifyWorkingHours.Route | netlify/functions/working-hours.js:40-81 | OPTIONS is preflight and GET reads the whole map. PUT with person and day segments updates a cell, PUT with only a person replaces a schedule, and everything else is 404. |
| NetlifyWorkingHours.HoursFunction.constructor | netlify/functions/working-hours.js:4-25 | A cold start holds the two seeded people. |
| NetlifyWorkingHours.HoursFunction.Handle | netlify/functions/working-hours.js:27-87 | A PUT with an unparsable body answers 500 and changes nothing. GET changes nothing. A PUT answers as `PatchCell` or `PutSchedule`, and everything else is 404 with nothing changed. |
| Database.Db.constructor | netlify/functions/db.js:24-54 | `CREATE TABLE IF NOT EXISTS` on a fresh database gives three empty tables that satisfy their constraints. |
| Database.Db.InitializeDatabase | netlify/functions/db.js:56-97 | `working_hours` receives the ten default rows, and `presets` the five default presets with consecutive serial ids, each only when that table is empty. A non-empty table and the notes are untouched, and the constraints hold. |
| Database.DefaultRowsUnique | netlify/functions/db.js:59-70 | The default rows satisfy the UNIQUE (person, day) constraint. |
| Database.Db.GetAllNotes | netlify/functions/db.js:107-110 | Every note row is returned. |
| Database.Db.GetNoteById | netlify/functions/db.js:112-115 | The row with that id, or nothing. |
| Tables.NoteRow | netlify/functions/db.js:113-114 | Nothing exactly when no row has the id. Otherwise a row of the table with that id. |
| Tables.NoteKeyIsValidIds | netlify/functions/db.js:26 | The notes PRIMARY KEY is the distinct-ids part of the in-memory invariant. |
| Database.Db.CreateNote | netlify/functions/db.js:117-136 | One row is appended with the lowest free id of the table, the message as given, the priority defaulting to "normal" when absent and the timestamp now. The key constraint is kept. |
| Database.BuildNoteUpdate | netlify/functions/db.js:139-162 | No statement exactly when no field is supplied. Otherwise placeholders `$1..$k` go to the supplied fields in the order message, priority, bound to their values, followed by `timestamp = NOW()` and the id bound to `$k+1` as the last of k+1 values. |
| Tables.SuppliedFields | netlify/functions/db.js:143-152 | At most two fields, and none exactly when neither message nor priority is supplied. |
| Tables.NumberedUpdateIsPatch | netlify/functions/db.js:158-165 | Running a statement so numbered writes the supplied fields and a fresh timestamp into every row with that id, leaves every other row untouched, and returns the updated row. |
| Tables.ExecUpdate | netlify/functions/db.js:161-165 | An accepted `UPDATE` keeps the number of rows and every row's id. |
| Tables.PatchRows | netlify/functions/db.js:161-164 | Rows with the id get the supplied fields and the new timestamp. Other rows and all ids are unchanged. |
| Database.Db.UpdateNote | netlify/functions/db.js:138-166 | With no field supplied the table is unchanged (no timestamp refresh). Otherwise it becomes `PatchRows` of the old table. The row returned is the row with that id, and the constraints hold. |
| Database.Db.DeleteNote | netlify/functions/db.js:168-171 | The row with that id is returned (or nothing) and removed. Every other row stays. |
| Tables.NotesWithout | netlify/functions/db.js:169 | `DELETE ... WHERE id = $1` keeps exactly the rows with another id, leaves no row with that id and keeps the id invariant. |
| Database.Db.ClearAllNotes | netlify/functions/db.js:173-176 | The notes table is emptied and "All notes cleared" is returned. |
| Database.Db.GetAllWorkingHours | netlify/functions/db.js:179-210 | The result is the grouping of the `working_hours` rows. |
| Tables.Grouped | netlify/functions/db.js:195-209 | A person is a key exactly when some row belongs to them, and their name is the key with its first letter uppercased. |
| Tables.GroupedIsScheduleOf | netlify/functions/db.js:196-207 | The schedule grouped for a person is the schedule `getPersonSchedule` builds for them. |
| Tables.ScheduleOf | netlify/functions/db.js:245-251 | A day is in a person's schedule exactly when a row of theirs has it, and every entry comes from such a row. |
| Tables.ScheduleHasEveryRow | netlify/functions/db.js:246-251 | Under (person, day) uniqueness every row of the person appears in the schedule with its location and hours. |
| Tables.ScheduleOfAbsent | netlify/functions/db.js:245-251 | A person without any row gets the empty schedule. |
| Database.Db.GetPersonSchedule | netlify/functions/db.js:239-257 | The person's rows as a schedule, under the capitalised name. |
| Text.Capitalize | netlify/functions/db.js:199 | `charAt(0).toUpperCase() + slice(1)`: same length and same tail. A lower-case first letter becomes its upper-case form, and any other first character is kept. |
| Database.Db.UpdatePersonSchedule | netlify/functions/db.js:212-225 | Other persons' rows are untouched. The person's rows are exactly the schedule entries, and the person read back has exactly the given schedule. |
| Database.ScheduleMatches | netlify/functions/db.js:224 | Rows matching a schedule exactly give back that schedule. |
| Tables.Keep | netlify/functions/db.js:214 | A `WHERE` delete keeps exactly the rows the condition keeps. |
| Tables.KeepUnique | netlify/functions/db.js:214 | Deleting rows never breaks a key constraint. |
| Tables.AppendUnique | netlify/functions/db.js:218-221 | Inserting a row with a new key keeps the UNIQUE constraint. |
| Database.Db.UpdatePersonDay | netlify/functions/db.js:227-237 | After the upsert exactly one row has (person, day), carrying the given location and hours. Every row with another key is kept and the constraint holds. |
| Tables.CellIndex | netlify/functions/db.js:231 | The conflicting row for (person, day), or -1 exactly when there is none. |
| Database.Db.GetAllPresets | netlify/functions/db.js:260-263 | Every preset row is returned. |
| Database.Db.GetPresetById | netlify/functions/db.js:265-268 | The row with that id, or nothing. |
| Tables.PresetRowById | netlify/functions/db.js:266 | Nothing exactly when no row has the id. Otherwise a row of the table with that id. |
| Database.Db.CreatePreset | netlify/functions/db.js:270-276 | The id is the next serial value, larger than every id in the table. The priority defaults to "normal" when absent, both timestamps are now, and the row is appended. |
| Database.Db.UpdatePreset | netlify/functions/db.js:278-284 | Text and priority (NULL when absent) are overwritten and `updated_at` is refreshed in the row with that id. Nothing is returned exactly when there is no such row. |
| Tables.PresetsUpdated | netlify/functions/db.js:279-282 | Rows with the id get the new text, priority and `updated_at`, keeping `created_at`. Other rows are unchanged. |
| Database.UpdatedPresetRow | netlify/functions/db.js:279-283 | Under unique ids the row returned after the update is the updated row, and exists exactly when it existed before. |
| Database.Db.DeletePreset | netlify/functions/db.js:286-289 | The row with that id is returned (or nothing) and removed, other rows stay, and the constraints hold. |
| Tables.PresetsWithout | netlify/functions/db.js:287 | Exactly the rows with another id remain, and uniqueness is kept. |
| Presets.Decide | netlify/functions/presets.js:12-165 | Checks run in order: OPTIONS gives 200 with no body; a non-JSON body gives 400 before any route; a non-numeric id on GET, PUT or DELETE by id gives 400; missing or blank text on POST/PUT gives 400; any other method and path gives 405 (an iff). ListAll, Fetch, Create, Update and Remove are each chosen exactly when their method, path, valid id and text conditions hold. A replied decision is 200 only for OPTIONS. Create and update carry the trimmed text, and create defaults the priority to "normal". |
| Presets.Handle | netlify/functions/presets.js:3-175 | A replied decision touches no table. Each operation runs on the store with a missing row giving 404 "Preset not found" and every other table untouched. Create answers 201 with the new row, update answers with the updated row, and delete answers "Preset deleted successfully". |
| Text.LastSegment | netlify/functions/presets.js:51 | `split('/').pop()` contains no '/', is a suffix of the path, and is preceded by '/' when shorter than it. |
| Text.Contains | netlify/functions/presets.js:49 | `includes` holds exactly when the needle occurs at some position of the path. |
| Text.OccursShift | netlify/functions/presets.js:49 | When the path does not start with the needle, an occurrence in it is exactly an occurrence in its tail, shifted by one. |
| Display.Classify | public/display.js:276-289 | Exactly one band is chosen by where the difference falls (under a minute, including the future; minutes; hours; days; a week or more, or NaN, which fails every comparison). Each count is the floor of the difference in its unit. |
| Display.FormatTimestamp | public/display.js:272-291 | "Just now" under a minute, the date label at a week or more or for NaN, and a label ending in " ago" in between. |
| Display.AgoReadsBack | public/display.js:283-287 | A relative label starts with its count, which `parseInt` reads back, ends in " ago", and has the plural "s" exactly when the count is not 1. |
| Display.RelativeLabelCount | public/display.js:276-287 | Between a minute and a week the label is the whole number of minutes, hours or days in the chosen unit. |
| Text.NatToString | public/display.js:283 | The decimal rendering is non-empty, made of digits, and has no leading zero except for 0. |
| Display.JsRem | public/display.js:191 | JavaScript's `%` keeps the sign of the dividend, its magnitude is below the divisor, and it differs from the dividend by a multiple of the divisor. |
| Display.RotationIndex | public/display.js:191 | For a clock at or after the epoch, `floor(now/5000) % n` is a valid index into the n people. |
| Display.RotationAdvances | public/display.js:191 | Five seconds later the index moves to the next person, wrapping round. |
| Display.Normalize | public/display.js:170-176 | A missing or empty name falls back to the key with its first letter uppercased, which is non-empty for a non-empty key. A missing schedule falls back to the person object's own day properties. |
| Display.OrNotSet | public/display.js:223-224 | `value \|\| 'Not set'`: an empty value becomes "Not set", and a non-empty value is kept. |
| Display.DayCells | public/display.js:206-224 | Five rows, Monday to Friday. A missing day shows "Not set" twice, an empty location or hours shows "Not set", and nothing shown is empty. |
| Display.ScheduleView | public/display.js:179-192 | No people gives the empty state. Otherwise the panel shows the person at the rotation index, normalised, with their five day rows. |

## Left out

- Network and framework plumbing: HTTP, Express middleware (`cors`, `body-parser`, static files) and CORS headers are not modelled. The Netlify event wrapper, the `pg` pool, SSL configuration and SQL execution are not modelled either. The tables are sequences of rows and each request is one atomic step.
- Request bodies are already-parsed records whose fields are strings, or absent. JSON `null`, numbers, booleans, and objects in the place of the string fields are not modelled (the `schedule` field is modelled as a map of day entries). Neither are the exceptions they would raise (for example `.trim()` on a number), nor keys inherited from `Object.prototype`.
- Timestamps are opaque values passed in as `now`. `new Date()`, `toISOString`, `NOW()` and `toLocaleDateString` are not modelled; the last is a date label parameter.
- `toLowerCase`/`toUpperCase` are modelled on ASCII letters only.
- Row order is not modelled. `ORDER BY timestamp DESC`, `ORDER BY created_at DESC`, `ORDER BY person, CASE day` and `ORDER BY day` do not change the contracts, except that grouping folds rows in table order.
- The race between concurrent `createNote` calls, and any other interleaving of requests, is not modelled.
- The `working_hours` `SERIAL` id column is not modelled. Neither are the `VARCHAR` length limits, the `int4` range of ids, or NULL `location`/`hours` values in `updatePersonDay` and `updatePersonSchedule`.
- Database.Db.InitializeDatabase: the two `COUNT(*)` checks and the `SELECT NOW()` connection test are not modelled as queries. Seeding the working hours is stated as equal to the ten default rows. There is no lemma that the seeded SQL rows group into the same map as the in-memory seed.
- Text.ParseInt carries no contract of its own. What `parseInt` does is stated by Text.ParseIntReadsDecimal and Text.ParseDecimalStart, for the strings the store renders and reads back.
- Display.ScheduleView: the `Array.isArray` branch (a working-hours value that is already an array of people) is not modelled. The person list is given in `Object.keys` order.
- Display.DayCells: a day entry whose location or hours is a non-string value is not modelled.
- Display.ScheduleView: requires a clock at or after the epoch (`nowMs >= 0`). For a clock before 1970 JavaScript's `%` gives a negative index, and that case is not modelled.
- The rest of the display page is not modelled: timers, DOM rendering, the Ably subscription, the WebRTC camera, the message pop-up and `escapeHtml`.
- The admin page and the Ably token function are not part of this model.
