/**
 * The two pure helpers of the display page: the relative time shown under
 * each note, and the choice and normalisation of the person whose week is
 * shown by the rotating schedule panel.
 */
module Display {
  import opened Api
  import opened Text

  const MsPerMinute: int := 60000
  const MsPerHour: int := 3600000
  const MsPerDay: int := 86400000
  const RotationMs: int := 5000
  const NotSet: string := "Not set"

  /**
   * The band `formatTimestamp` picks for a difference `now - date` in
   * milliseconds; `None` is the NaN of an unparsable timestamp.
   */
  datatype Band = JustNow | MinutesAgo(n: nat) | HoursAgo(n: nat) | DaysAgo(n: nat) | OnDate

  /**
   * The chain of comparisons on `Math.floor(diff / 60000)`, `/ 3600000` and
   * `/ 86400000`: exactly one band, chosen by where the difference falls;
   * the future counts as "just now" and NaN fails every comparison.
   */
  function Classify(diffMs: Option<int>): (b: Band)
    ensures b.JustNow? <==> diffMs.Some? && diffMs.value < MsPerMinute
    ensures b.MinutesAgo? <==> diffMs.Some? && MsPerMinute <= diffMs.value < MsPerHour
    ensures b.HoursAgo? <==> diffMs.Some? && MsPerHour <= diffMs.value < MsPerDay
    ensures b.DaysAgo? <==> diffMs.Some? && MsPerDay <= diffMs.value < 7 * MsPerDay
    ensures b.OnDate? <==> diffMs.None? || diffMs.value >= 7 * MsPerDay
    ensures b.MinutesAgo? ==> 1 <= b.n < 60 && b.n * MsPerMinute <= diffMs.value < (b.n + 1) * MsPerMinute
    ensures b.HoursAgo? ==> 1 <= b.n < 24 && b.n * MsPerHour <= diffMs.value < (b.n + 1) * MsPerHour
    ensures b.DaysAgo? ==> 1 <= b.n < 7 && b.n * MsPerDay <= diffMs.value < (b.n + 1) * MsPerDay
  {
    if diffMs.None? then OnDate
    else
      var ms := diffMs.value;
      var mins, hours, days := ms / MsPerMinute, ms / MsPerHour, ms / MsPerDay;
      if mins < 1 then JustNow
      else if mins < 60 then MinutesAgo(mins)
      else if hours < 24 then HoursAgo(hours)
      else if days < 7 then DaysAgo(days)
      else OnDate
  }

  /** `${n} unit${n !== 1 ? 's' : ''} ago` */
  function Ago(n: nat, unit: string): string {
    NatToString(n) + " " + unit + (if n != 1 then "s" else "") + " ago"
  }

  /**
   * `formatTimestamp`; `dateLabel` stands for `date.toLocaleDateString()`,
   * which depends on the locale.
   */
  function FormatTimestamp(diffMs: Option<int>, dateLabel: string): (s: string)
    ensures diffMs.Some? && diffMs.value < MsPerMinute ==> s == "Just now"
    ensures diffMs.None? || diffMs.value >= 7 * MsPerDay ==> s == dateLabel
    ensures diffMs.Some? && MsPerMinute <= diffMs.value < 7 * MsPerDay ==> |s| >= 4 && s[|s| - 4..] == " ago"
  {
    match Classify(diffMs)
    case JustNow => "Just now"
    case MinutesAgo(n) => AgoReadsBack(n, "minute"); Ago(n, "minute")
    case HoursAgo(n) => AgoReadsBack(n, "hour"); Ago(n, "hour")
    case DaysAgo(n) => AgoReadsBack(n, "day"); Ago(n, "day")
    case OnDate => dateLabel
  }

  /**
   * A relative label starts with its count, which `parseInt` reads back,
   * ends in " ago", and is plural exactly when the count is not 1.
   */
  lemma AgoReadsBack(n: nat, unit: string)
    ensures ParseInt(Ago(n, unit)) == Some(n)
    ensures |Ago(n, unit)| >= 4 && Ago(n, unit)[|Ago(n, unit)| - 4..] == " ago"
    ensures var s := Ago(n, unit);
      n != 1 <==> s[..|s| - 4] == NatToString(n) + " " + unit + "s"
  {
    var rest := " " + unit + (if n != 1 then "s" else "") + " ago";
    assert Ago(n, unit) == NatToString(n) + rest;
    assert DigitValue(rest[0]) >= 10;
    ParseIntReadsDecimal(n, rest);
    var s := Ago(n, unit);
    assert s[..|s| - 4] == NatToString(n) + " " + unit + (if n != 1 then "s" else "");
    if n == 1 {
      assert |s[..|s| - 4]| != |NatToString(n) + " " + unit + "s"|;
    }
  }

  /**
   * Every difference of at least a minute and under a week is rendered as
   * its whole number of minutes, hours or days, read back by `parseInt`.
   */
  lemma {:induction false} RelativeLabelCount(diffMs: int, dateLabel: string)
    requires MsPerMinute <= diffMs < 7 * MsPerDay
    ensures var s := FormatTimestamp(Some(diffMs), dateLabel);
      && (diffMs < MsPerHour ==> ParseInt(s) == Some(diffMs / MsPerMinute) && s == Ago(diffMs / MsPerMinute, "minute"))
      && (MsPerHour <= diffMs < MsPerDay ==> ParseInt(s) == Some(diffMs / MsPerHour) && s == Ago(diffMs / MsPerHour, "hour"))
      && (MsPerDay <= diffMs ==> ParseInt(s) == Some(diffMs / MsPerDay) && s == Ago(diffMs / MsPerDay, "day"))
  {
    var b := Classify(Some(diffMs));
    match b
    case MinutesAgo(n) => AgoReadsBack(n, "minute");
    case HoursAgo(n) => AgoReadsBack(n, "hour");
    case DaysAgo(n) => AgoReadsBack(n, "day");
    case _ =>
  }

  /**
   * JavaScript's `%`: the remainder takes the sign of the dividend (it
   * truncates toward zero, unlike Dafny's Euclidean `%`).
   */
  function JsRem(a: int, n: int): (r: int)
    requires n > 0
    ensures a >= 0 ==> 0 <= r < n
    ensures a < 0 ==> -n < r <= 0
    ensures (a - r) % n == 0
  {
    if a >= 0 then
      var r := a % n;
      ModUnique(a - r, n, a / n, 0);
      r
    else
      var q, m := (-a) / n, (-a) % n;
      assert n * -q == -(n * q);
      ModUnique(a + m, n, -q, 0);
      -m
  }

  /**
   * `Math.floor(Date.now() / 5000) % people.length`: for a clock at or
   * after the epoch the index is a valid position, and it moves on by one
   * person (wrapping round) every five seconds.
   */
  function RotationIndex(nowMs: int, n: int): (i: int)
    requires n > 0
    ensures nowMs >= 0 ==> 0 <= i < n
    ensures nowMs >= 0 ==> i == (nowMs / RotationMs) % n
  {
    JsRem(nowMs / RotationMs, n)
  }

  lemma RotationAdvances(nowMs: int, n: int)
    requires n > 0 && nowMs >= 0
    ensures RotationIndex(nowMs + RotationMs, n) == (RotationIndex(nowMs, n) + 1) % n
  {
    var q := nowMs / RotationMs;
    assert (nowMs + RotationMs) / RotationMs == q + 1;
    ModSuccessor(q, n);
  }

  lemma ModSuccessor(q: nat, n: int)
    requires n > 0
    ensures (q + 1) % n == (q % n + 1) % n
  {
    var d, m := q / n, q % n;
    assert q == n * d + m;
    if m + 1 < n {
      ModUnique(q + 1, n, d, m + 1);
      ModUnique(m + 1, n, 0, m + 1);
    } else {
      assert q + 1 == n * (d + 1) + 0;
      ModUnique(q + 1, n, d + 1, 0);
      ModUnique(m + 1, n, 1, 0);
    }
  }

  /** Division with a remainder in [0, n) has only one answer. */
  lemma ModUnique(a: int, n: int, d: int, r: int)
    requires n > 0 && a == n * d + r && 0 <= r < n
    ensures a % n == r
  {
    var q, m := a / n, a % n;
    var t := q - d;
    assert n * q == n * d + n * t;
    if t >= 1 {
      MulAtLeast(n, t);
    } else if t <= -1 {
      MulAtLeast(n, -t);
      assert n * (-t) == -(n * t);
    }
  }

  lemma {:induction false} MulAtLeast(n: int, t: int)
    requires n > 0 && t >= 1
    ensures n * t >= n
    decreases t
  {
    if t > 1 {
      MulAtLeast(n, t - 1);
      assert n * t == n * (t - 1) + n;
    }
  }

  /** A person of the working-hours object as the page receives it. */
  datatype RawPerson = RawPerson(
    name: Option<string>,
    schedule: Option<map<string, DayEntry>>,
    /** The day-named properties of the object itself, used when it has no `schedule`. */
    ownDays: map<string, DayEntry>)

  /** A person ready to show. */
  datatype PersonView = PersonView(name: string, schedule: map<string, DayEntry>)

  /**
   * The `map` over `Object.keys`: a missing or empty name falls back to the
   * key with its first letter uppercased, a missing schedule to the
   * person's own day properties.
   */
  function Normalize(key: string, p: RawPerson): (v: PersonView)
    ensures p.name.Some? && p.name.value != "" ==> v.name == p.name.value
    ensures p.name.None? || p.name.value == "" ==> v.name == Capitalize(key)
    ensures key != "" ==> v.name != ""
    ensures p.schedule.Some? ==> v.schedule == p.schedule.value
    ensures p.schedule.None? ==> v.schedule == p.ownDays
  {
    PersonView(
      if p.name.Some? && p.name.value != "" then p.name.value else Capitalize(key),
      if p.schedule.Some? then p.schedule.value else p.ownDays)
  }

  const Weekdays: seq<string> := ["monday", "tuesday", "wednesday", "thursday", "friday"]
  const WeekdayNames: seq<string> := ["Monday", "Tuesday", "Wednesday", "Thursday", "Friday"]

  /** One row of the panel: day name, location, hours. */
  datatype DayCell = DayCell(dayName: string, location: string, hours: string)

  /** `value || 'Not set'` */
  function OrNotSet(value: string): (r: string)
    ensures r != ""
    ensures value != "" ==> r == value
    ensures value == "" ==> r == NotSet
  {
    if value == "" then NotSet else value
  }

  /**
   * The five weekday rows: a day missing from the schedule, and an empty
   * location or hours, show "Not set"; nothing shown is ever empty.
   */
  function DayCells(schedule: map<string, DayEntry>): (cells: seq<DayCell>)
    ensures |cells| == |Weekdays|
    ensures forall i :: 0 <= i < |cells| ==>
      && cells[i].dayName == WeekdayNames[i]
      && cells[i].location != "" && cells[i].hours != ""
      && (Weekdays[i] !in schedule ==> cells[i].location == NotSet && cells[i].hours == NotSet)
      && (Weekdays[i] in schedule && schedule[Weekdays[i]].location != "" ==>
            cells[i].location == schedule[Weekdays[i]].location)
      && (Weekdays[i] in schedule && schedule[Weekdays[i]].hours != "" ==>
            cells[i].hours == schedule[Weekdays[i]].hours)
      && (Weekdays[i] in schedule && schedule[Weekdays[i]].location == "" ==> cells[i].location == NotSet)
      && (Weekdays[i] in schedule && schedule[Weekdays[i]].hours == "" ==> cells[i].hours == NotSet)
  {
    seq(|Weekdays|, i requires 0 <= i < |Weekdays| =>
      if Weekdays[i] !in schedule then DayCell(WeekdayNames[i], NotSet, NotSet)
      else DayCell(WeekdayNames[i], OrNotSet(schedule[Weekdays[i]].location), OrNotSet(schedule[Weekdays[i]].hours)))
  }

  /**
   * The schedule panel: nothing to rotate through shows the empty state
   * (`None`); otherwise the person at the rotation index, normalised, with
   * their five day rows.
   */
  function ScheduleView(people: seq<(string, RawPerson)>, nowMs: int): (v: Option<(PersonView, seq<DayCell>)>)
    requires nowMs >= 0
    ensures v.None? <==> |people| == 0
    ensures v.Some? ==>
      exists i :: 0 <= i < |people| && i == RotationIndex(nowMs, |people|)
        && v.value.0 == Normalize(people[i].0, people[i].1)
        && v.value.1 == DayCells(v.value.0.schedule)
  {
    if |people| == 0 then None
    else
      var i := RotationIndex(nowMs, |people|);
      var person := Normalize(people[i].0, people[i].1);
      Some((person, DayCells(person.schedule)))
  }
}
