/** JSON values as Python's json module gives them. */
module Json {
  import opened Text

  datatype Json =
    | JNull
    | JBool(b: bool)
    | JInt(i: int)
    | JFloat(r: real)
    | JString(s: string)
    | JArray(items: seq<Json>)
    | JObject(fields: map<string, Json>)

  /** `dict.get`: a missing key reads like null. */
  function Get(fields: map<string, Json>, key: string): Json {
    if key in fields then fields[key] else JNull
  }

  // ---------- instants ----------

  const HOUR := 3_600_000_000

  /** The first and the last instant that Python can hold, in microseconds. */
  const EARLIEST: int := -62_135_596_800_000_000
  const FOREVER: int := 253_402_300_799_999_999

  /** What `datetime.fromisoformat` makes of a text, a final `Z` read as UTC: no
      instant, one with no offset, or a local time and its offset from UTC. */
  datatype Iso = NotIso | Naive | Aware(local: int, offset: int)

  /** What `_parse_instant` gives: an instant in UTC, nothing, or an exception, when
      the instant can be written with an offset but not in UTC. */
  datatype Instant = At(t: int) | NoInstant | Overflow

  /** The parts of Python's library that the scripts call and that are not
      modelled: reading and writing an instant (microseconds), lower-casing, and the
      floating-point number that stands for an instant. Every property holds for any
      choice of them. */
  datatype Python = Python(
    parseIso: string -> Iso,
    formatIso: int -> string,
    lower: string -> string,
    timestamp: int -> real)

  /** `parsed.astimezone(dt.UTC)` */
  function ToUtc(local: int, offset: int): Instant {
    if EARLIEST <= local - offset <= FOREVER then At(local - offset) else Overflow
  }

  /** `_parse_instant`: a string that is not blank and is an ISO instant with an offset. */
  function ParseInstant(py: Python, value: Json): Instant {
    if !value.JString? || Strip(value.s) == "" then NoInstant else
    match py.parseIso(Strip(value.s))
    case NotIso => NoInstant
    case Naive => NoInstant
    case Aware(local, offset) => ToUtc(local, offset)
  }

  /** A value is an instant exactly when it is a text, not blank, that Python reads with
      an offset, and the instant is the local time less the offset; it overflows exactly
      when that lies outside Python's calendar. */
  lemma {:induction false} InstantExactly(py: Python, value: Json, t: int)
    ensures ParseInstant(py, value) == At(t) <==>
      && value.JString? && (exists k | 0 <= k < |value.s| :: !IsPySpace(value.s[k]))
      && py.parseIso(Strip(value.s)).Aware?
      && var read := py.parseIso(Strip(value.s));
         t == read.local - read.offset && -62_135_596_800_000_000 <= t <= 253_402_300_799_999_999
    ensures ParseInstant(py, value) == Overflow <==>
      && value.JString? && (exists k | 0 <= k < |value.s| :: !IsPySpace(value.s[k]))
      && py.parseIso(Strip(value.s)).Aware?
      && var read := py.parseIso(Strip(value.s));
         !(-62_135_596_800_000_000 <= read.local - read.offset <= 253_402_300_799_999_999)
  {
    if value.JString? { TrimEmpty(value.s, IsPySpace); }
    hide IsPySpace, Trim;
  }

  /** Writing this instant and reading it back gives the instant. */
  predicate Faithful(py: Python, t: int) {
    ParseInstant(py, JString(py.formatIso(t))) == At(t)
  }

  // ---------- instants that stop the scripts ----------

  const TOO_EARLY := "0001-01-01T00:00:00+01:00"
  const TOO_LATE := "9999-12-31T23:59:59-12:00"

  /** Python's reading of two texts: the first and the last second of its calendar,
      east and west of Greenwich. */
  predicate ReadsCalendarEnds(py: Python) {
    && py.parseIso(TOO_EARLY) == Aware(EARLIEST, HOUR)
    && py.parseIso(TOO_LATE) == Aware(FOREVER - 999_999, -12 * HOUR)
  }

  /** Neither of them can be written in UTC. */
  lemma {:induction false} CalendarEndsOverflow(py: Python)
    requires ReadsCalendarEnds(py)
    ensures ParseInstant(py, JString(TOO_EARLY)) == Overflow && ParseInstant(py, JString(TOO_LATE)) == Overflow
  {
    TrimPadded("", TOO_EARLY, "", IsPySpace);
    TrimPadded("", TOO_LATE, "", IsPySpace);
    assert "" + TOO_EARLY + "" == TOO_EARLY && "" + TOO_LATE + "" == TOO_LATE;
  }
}
