/**
 * The `time` command family (src/handlers/time.rs): the current time, epoch-second
 * conversions in both directions, reformatting a date between two strftime patterns,
 * the distance between a timestamp and now in weeks, days, hours, minutes and seconds,
 * and the list of known timezones.
 *
 * The calendar library (chrono), the timezone database (chrono_tz) and the clock are
 * not part of this model: the clock reading is an input, and the library is a record
 * of functions (`Chrono`) about which nothing is assumed.
 */
module Time {
  import opened Wrappers
  import opened Strings
  import opened Handlers

  // ------------------------------------------------------------ data model

  /** The 64-bit signed integers the command line accepts as timestamps. */
  type Int64 = x: int | -0x8000_0000_0000_0000 <= x < 0x8000_0000_0000_0000

  type Nanos = n: int | 0 <= n < 1_000_000_000

  /** A reading of the UTC clock (`Utc::now()`): whole seconds since the epoch and the nanoseconds past them. */
  datatype Instant = Instant(secs: int, nanos: Nanos)

  /** A zone of the timezone database (`chrono_tz::Tz`); it displays as its name. */
  datatype Zone = Zone(name: string)

  /**
   * A date parsed together with its UTC offset (`DateTime<FixedOffset>`): its epoch second,
   * chrono's `nanosecond()`, and the offset. During a leap second chrono keeps second 59 and
   * counts the nanoseconds from 1_000_000_000 up, so `%S` can print 60.
   */
  datatype FixedDateTime = FixedDateTime(timestamp: int, nanosecond: nat, offsetSeconds: int)

  /** A wall-clock date and time with no zone (`NaiveDateTime`). */
  datatype NaiveDateTime = NaiveDateTime(year: int, month: int, day: int, hour: int, minute: int, second: int, nanosecond: int)

  /** The calendar library and timezone database the handler calls. */
  datatype Chrono = Chrono(
    /** `DateTime::from_timestamp(t, 0)` returns a date: `t` lies in the library's calendar range. */
    validTimestamp: int -> bool,
    /** Parsing a zone name into a `Tz`. */
    parseZone: string -> Option<Zone>,
    /** `TZ_VARIANTS`, every zone of the database in its own order. */
    zones: seq<Zone>,
    /** `Utc::now().with_timezone(&tz).format(pattern)`. */
    formatNowIn: (Instant, Zone, string) -> string,
    /** `Local::now().format(pattern)`, in the machine's own zone. */
    formatNowLocal: (Instant, string) -> string,
    /** `to_rfc3339` of a UTC date. */
    rfc3339Utc: int -> string,
    /** `with_timezone(&tz).to_rfc3339()` of a UTC date. */
    rfc3339In: (int, Zone) -> string,
    /** `DateTime::parse_from_str(date, pattern)`. */
    parseFixed: (string, string) -> Option<FixedDateTime>,
    /** `NaiveDateTime::parse_from_str(date, pattern)`. */
    parseNaive: (string, string) -> Option<NaiveDateTime>,
    /** `and_utc().timestamp()`: the epoch second of a wall-clock time read as UTC. */
    naiveAsUtc: NaiveDateTime -> int,
    /** `format(pattern).to_string()` of an offset-aware date; `None` when the pattern has a specifier chrono cannot render. */
    formatFixed: (FixedDateTime, string) -> Option<string>,
    /** `format(pattern).to_string()` of a naive date; `None` also for `%z`/`%Z`, since the date has no offset. */
    formatNaive: (NaiveDateTime, string) -> Option<string>
  )

  /**
   * How a handler call ends: with its `Result`, or in a panic, which is what `to_string()`
   * does when the formatter it drives reports an error.
   */
  datatype Outcome = Returned(result: Result<string, CommandHandlerError>) | Panicked

  datatype TimeNowOptions = TimeNowOptions(timezone: Option<string>)
  datatype TimeFromUnixOptions = TimeFromUnixOptions(timestamp: Int64, timezone: Option<string>)
  datatype TimeToUnixOptions = TimeToUnixOptions(date: string, format: string)
  /** `start` is accepted on the command line but never read. */
  datatype TimeAgoOptions = TimeAgoOptions(timestamp: Int64, start: Option<Int64>)
  datatype TimeFormatOptions = TimeFormatOptions(date: string, from: string, target: string)

  /** The `time` subcommands. */
  datatype TimeMethod =
    | Now(nowOptions: TimeNowOptions)
    | Unix
    | FromUnix(fromUnixOptions: TimeFromUnixOptions)
    | ToUnix(toUnixOptions: TimeToUnixOptions)
    | Relative(relativeOptions: TimeAgoOptions)
    | Format(formatOptions: TimeFormatOptions)
    | Tz

  // ------------------------------------------------------------ messages

  const TZ_PREFIX := "Timezone '"
  const TZ_SUFFIX := "' is invalid! Run 'dx time tz' to list all available timezones"
  const TIMESTAMP_PREFIX := "Timestamp '"
  const TIMESTAMP_SUFFIX := "' is invalid!"
  const PARSE_PREFIX := "Failed to parse date '"
  const PARSE_SUFFIX := "'!"

  /** `text` quoted between a fixed prefix and suffix. */
  predicate Frames(m: string, prefix: string, text: string, suffix: string)
  {
    && |m| == |prefix| + |text| + |suffix|
    && m[..|prefix|] == prefix
    && m[|prefix|..|prefix| + |text|] == text
    && m[|prefix| + |text|..] == suffix
  }

  /** The text between a known prefix and suffix is determined by the whole message. */
  lemma FramesInjective(m: string, prefix: string, a: string, b: string, suffix: string)
    requires Frames(m, prefix, a, suffix) && Frames(m, prefix, b, suffix)
    ensures a == b
  {
  }

  /** The error text for a zone name the database does not know; it points at `dx time tz`. */
  function InvalidTzMessage(timezone: string): (m: string)
    ensures Frames(m, TZ_PREFIX, timezone, TZ_SUFFIX)
  {
    TZ_PREFIX + timezone + TZ_SUFFIX
  }

  /** The error text for a timestamp outside the calendar range; the timestamp can be read back from it. */
  function InvalidTimestampMessage(timestamp: int): (m: string)
    ensures Frames(m, TIMESTAMP_PREFIX, IntToString(timestamp), TIMESTAMP_SUFFIX)
    ensures ParseInt(m[|TIMESTAMP_PREFIX|..|m| - |TIMESTAMP_SUFFIX|]) == Some(timestamp)
  {
    var m := TIMESTAMP_PREFIX + IntToString(timestamp) + TIMESTAMP_SUFFIX;
    assert m[|TIMESTAMP_PREFIX|..|m| - |TIMESTAMP_SUFFIX|] == IntToString(timestamp);
    ParseIntToString(timestamp);
    m
  }

  /** The error text for a date that does not match its pattern; the parser's own reason is dropped. */
  function ParseFailedMessage(date: string): (m: string)
    ensures Frames(m, PARSE_PREFIX, date, PARSE_SUFFIX)
  {
    PARSE_PREFIX + date + PARSE_SUFFIX
  }

  /** Distinct zones, timestamps and dates give distinct messages. */
  lemma MessagesIdentifyTheirSubject(z1: string, z2: string, t1: int, t2: int, d1: string, d2: string)
    ensures InvalidTzMessage(z1) == InvalidTzMessage(z2) ==> z1 == z2
    ensures InvalidTimestampMessage(t1) == InvalidTimestampMessage(t2) ==> t1 == t2
    ensures ParseFailedMessage(d1) == ParseFailedMessage(d2) ==> d1 == d2
  {
    if InvalidTzMessage(z1) == InvalidTzMessage(z2) {
      FramesInjective(InvalidTzMessage(z1), TZ_PREFIX, z1, z2, TZ_SUFFIX);
    }
    if InvalidTimestampMessage(t1) == InvalidTimestampMessage(t2) {
      IntToStringInjective(t1, t2);
    }
    if ParseFailedMessage(d1) == ParseFailedMessage(d2) {
      FramesInjective(ParseFailedMessage(d1), PARSE_PREFIX, d1, d2, PARSE_SUFFIX);
    }
  }

  // ------------------------------------------------------------ pattern classifier

  /**
   * Whether a strftime pattern carries a zone: the text `%Z` or `%z` occurs in it.
   * The test is on the text alone, so `%%Z` counts and `%:z` does not.
   */
  function HasFormatTimezone(format: string): (b: bool)
    ensures b <==> exists i :: 0 <= i && i + 1 < |format| && format[i] == '%' && (format[i + 1] == 'Z' || format[i + 1] == 'z')
  {
    ContainsPair(format, '%', 'Z');
    ContainsPair(format, '%', 'z');
    Contains(format, "%Z") || Contains(format, "%z")
  }

  lemma ClassifierIsTextual()
    ensures HasFormatTimezone("%%Z")
    ensures !HasFormatTimezone("%:z")
    ensures !HasFormatTimezone("%#z")
  {
    assert "%%Z"[1] == '%' && "%%Z"[2] == 'Z';
  }

  // ------------------------------------------------------------ operations

  const NOW_FORMAT := "%d/%m/%Y %H:%M:%S %Z"

  /** `time now`: the clock shown in the named zone, or in the local zone when none is named. */
  function GetCurrentDatetime(options: TimeNowOptions, now: Instant, chrono: Chrono): (r: Result<string, CommandHandlerError>)
    ensures r.Failure? <==> options.timezone.Some? && chrono.parseZone(options.timezone.value).None?
    ensures r.Failure? ==> r.error == RuntimeError(Some(InvalidTzMessage(options.timezone.value)))
    ensures r.Success? && options.timezone.None? ==> r.value == chrono.formatNowLocal(now, NOW_FORMAT)
    ensures r.Success? && options.timezone.Some? ==>
      r.value == chrono.formatNowIn(now, chrono.parseZone(options.timezone.value).value, NOW_FORMAT)
  {
    match options.timezone
    case Some(timezone) =>
      (match chrono.parseZone(timezone)
       case None => Failure(RuntimeError(Some(InvalidTzMessage(timezone))))
       case Some(tz) => Success(chrono.formatNowIn(now, tz, NOW_FORMAT)))
    case None => Success(chrono.formatNowLocal(now, NOW_FORMAT))
  }

  /**
   * `time from-unix`: the timestamp as an RFC 3339 date, in UTC or in the named zone.
   * The range of the timestamp is checked before the zone name.
   */
  function ConvertFromUnix(options: TimeFromUnixOptions, chrono: Chrono): (r: Result<string, CommandHandlerError>)
    ensures !chrono.validTimestamp(options.timestamp) ==>
      r == Failure(RuntimeError(Some(InvalidTimestampMessage(options.timestamp))))
    ensures chrono.validTimestamp(options.timestamp) ==>
      (r.Failure? <==> options.timezone.Some? && chrono.parseZone(options.timezone.value).None?)
    ensures chrono.validTimestamp(options.timestamp) && r.Failure? ==>
      r.error == RuntimeError(Some(InvalidTzMessage(options.timezone.value)))
    ensures r.Success? && options.timezone.None? ==> r.value == chrono.rfc3339Utc(options.timestamp)
    ensures r.Success? && options.timezone.Some? ==>
      r.value == chrono.rfc3339In(options.timestamp, chrono.parseZone(options.timezone.value).value)
  {
    if chrono.validTimestamp(options.timestamp) then
      match options.timezone
      case Some(timezone) =>
        (match chrono.parseZone(timezone)
         case None => Failure(RuntimeError(Some(InvalidTzMessage(timezone))))
         case Some(tz) => Success(chrono.rfc3339In(options.timestamp, tz)))
      case None => Success(chrono.rfc3339Utc(options.timestamp))
    else
      Failure(RuntimeError(Some(InvalidTimestampMessage(options.timestamp))))
  }

  /**
   * `time to-unix`: the epoch second of a date, in decimal. A pattern with a zone is parsed
   * offset-aware; any other pattern is parsed as a naive date taken to be UTC.
   */
  function ConvertToUnix(options: TimeToUnixOptions, chrono: Chrono): (r: Result<string, CommandHandlerError>)
    ensures r.Failure? ==> r.error == RuntimeError(Some(ParseFailedMessage(options.date)))
    ensures HasFormatTimezone(options.format) ==>
      var parsed := chrono.parseFixed(options.date, options.format);
      && (r.Success? <==> parsed.Some?)
      && (r.Success? ==> ParseInt(r.value) == Some(parsed.value.timestamp))
    ensures !HasFormatTimezone(options.format) ==>
      var parsed := chrono.parseNaive(options.date, options.format);
      && (r.Success? <==> parsed.Some?)
      && (r.Success? ==> ParseInt(r.value) == Some(chrono.naiveAsUtc(parsed.value)))
  {
    var failed := Failure(RuntimeError(Some(ParseFailedMessage(options.date))));
    if HasFormatTimezone(options.format) then
      match chrono.parseFixed(options.date, options.format)
      case None => failed
      case Some(date) =>
        ParseIntToString(date.timestamp);
        Success(IntToString(date.timestamp))
    else
      match chrono.parseNaive(options.date, options.format)
      case None => failed
      case Some(date) =>
        ParseIntToString(chrono.naiveAsUtc(date));
        Success(IntToString(chrono.naiveAsUtc(date)))
  }

  /**
   * `time format`: a date parsed with one pattern and written with another, routed like
   * `time to-unix` by the source pattern.
   */
  function FormatDate(options: TimeFormatOptions, chrono: Chrono): (r: Outcome)
    ensures r.Returned? && r.result.Failure? ==> r.result.error == RuntimeError(Some(ParseFailedMessage(options.date)))
    ensures HasFormatTimezone(options.from) ==>
      var parsed := chrono.parseFixed(options.date, options.from);
      && (r.Returned? && r.result.Failure? <==> parsed.None?)
      && (r.Panicked? <==> parsed.Some? && chrono.formatFixed(parsed.value, options.target).None?)
      && (r.Returned? && r.result.Success? ==> Some(r.result.value) == chrono.formatFixed(parsed.value, options.target))
    ensures !HasFormatTimezone(options.from) ==>
      var parsed := chrono.parseNaive(options.date, options.from);
      && (r.Returned? && r.result.Failure? <==> parsed.None?)
      && (r.Panicked? <==> parsed.Some? && chrono.formatNaive(parsed.value, options.target).None?)
      && (r.Returned? && r.result.Success? ==> Some(r.result.value) == chrono.formatNaive(parsed.value, options.target))
  {
    var failed := Returned(Failure(RuntimeError(Some(ParseFailedMessage(options.date)))));
    if HasFormatTimezone(options.from) then
      match chrono.parseFixed(options.date, options.from)
      case None => failed
      case Some(date) => Written(chrono.formatFixed(date, options.target))
    else
      match chrono.parseNaive(options.date, options.from)
      case None => failed
      case Some(date) => Written(chrono.formatNaive(date, options.target))
  }

  /** `to_string()` of a formatted date: the text, or a panic when formatting failed. */
  function Written(formatted: Option<string>): (r: Outcome)
  {
    match formatted
    case None => Panicked
    case Some(text) => Returned(Success(text))
  }

  /** `time to-unix` and `time format` reject exactly the same dates, with the same error. */
  lemma ToUnixAndFormatFailTogether(date: string, pattern: string, target: string, chrono: Chrono)
    ensures var a := ConvertToUnix(TimeToUnixOptions(date, pattern), chrono);
      var b := FormatDate(TimeFormatOptions(date, pattern, target), chrono);
      && (a.Failure? <==> b.Returned? && b.result.Failure?)
      && (a.Failure? ==> b == Returned(a))
  {
  }

  /** `time tz`: one line `- <name>` per zone of the database, in its order. */
  function ZoneLines(zones: seq<Zone>): (lines: seq<string>)
    ensures |lines| == |zones|
  {
    seq(|zones|, k requires 0 <= k < |zones| => "- " + zones[k].name)
  }

  function TzListing(zones: seq<Zone>): string
  {
    Join(ZoneLines(zones), '\n')
  }

  /**
   * The listing reads back as one line per zone, in order, each the name after `- `;
   * nothing follows the last line and an empty database lists as the empty text.
   */
  lemma TzListingLines(zones: seq<Zone>)
    requires forall k :: 0 <= k < |zones| ==> '\n' !in zones[k].name
    ensures |zones| == 0 ==> TzListing(zones) == ""
    ensures |zones| > 0 ==>
      var lines := Split(TzListing(zones), '\n');
      && |lines| == |zones|
      && forall k :: 0 <= k < |zones| ==> lines[k] == "- " + zones[k].name
  {
    var lines := ZoneLines(zones);
    if |zones| > 0 {
      forall k | 0 <= k < |lines| ensures '\n' !in lines[k] {
        assert lines[k] == "- " + zones[k].name;
      }
      SplitJoin(lines, '\n');
    }
  }

  // ------------------------------------------------------------ relative time

  const SECONDS_PER_MINUTE := 60
  const SECONDS_PER_HOUR := 3600
  const SECONDS_PER_DAY := 86400
  const SECONDS_PER_WEEK := 604800

  /** A span of time as whole weeks, days, hours, minutes and seconds. */
  datatype Breakdown = Breakdown(weeks: nat, days: nat, hours: nat, minutes: nat, seconds: nat)
  {
    function TotalSeconds(): nat
    {
      weeks * SECONDS_PER_WEEK + days * SECONDS_PER_DAY + hours * SECONDS_PER_HOUR
        + minutes * SECONDS_PER_MINUTE + seconds
    }

    /** Each unit below weeks is less than one of the next unit up. */
    predicate Normal()
    {
      days < 7 && hours < 24 && minutes < 60 && seconds < 60
    }
  }

  /** Splits a second count by repeated division and remainder, largest unit first. */
  function Decompose(total: nat): (b: Breakdown)
    ensures b.TotalSeconds() == total && b.Normal()
  {
    var weeks := total / SECONDS_PER_WEEK;
    var afterWeeks := total % SECONDS_PER_WEEK;
    var days := afterWeeks / SECONDS_PER_DAY;
    var afterDays := afterWeeks % SECONDS_PER_DAY;
    var hours := afterDays / SECONDS_PER_HOUR;
    var afterHours := afterDays % SECONDS_PER_HOUR;
    Breakdown(weeks, days, hours, afterHours / SECONDS_PER_MINUTE, afterHours % SECONDS_PER_MINUTE)
  }

  lemma DecomposeByUnits(total: nat)
    ensures Decompose(total) == Breakdown(total / SECONDS_PER_WEEK, total % SECONDS_PER_WEEK / SECONDS_PER_DAY,
      total % SECONDS_PER_WEEK % SECONDS_PER_DAY / SECONDS_PER_HOUR,
      total % SECONDS_PER_WEEK % SECONDS_PER_DAY % SECONDS_PER_HOUR / SECONDS_PER_MINUTE,
      total % SECONDS_PER_WEEK % SECONDS_PER_DAY % SECONDS_PER_HOUR % SECONDS_PER_MINUTE)
  {
  }

  /** A normal breakdown is the one `Decompose` finds for its total: the split is unique. */
  lemma DecomposeUnique(b: Breakdown)
    requires b.Normal()
    ensures Decompose(b.TotalSeconds()) == b
  {
    var total := b.TotalSeconds();
    var belowWeek := b.days * SECONDS_PER_DAY + b.hours * SECONDS_PER_HOUR + b.minutes * SECONDS_PER_MINUTE + b.seconds;
    var belowDay := b.hours * SECONDS_PER_HOUR + b.minutes * SECONDS_PER_MINUTE + b.seconds;
    var belowHour := b.minutes * SECONDS_PER_MINUTE + b.seconds;
    assert total / SECONDS_PER_WEEK == b.weeks && total % SECONDS_PER_WEEK == belowWeek;
    assert belowWeek / SECONDS_PER_DAY == b.days && belowWeek % SECONDS_PER_DAY == belowDay;
    assert belowDay / SECONDS_PER_HOUR == b.hours && belowDay % SECONDS_PER_HOUR == belowHour;
    assert belowHour / SECONDS_PER_MINUTE == b.minutes && belowHour % SECONDS_PER_MINUTE == b.seconds;
  }

  /** `<count> <unit> ` when the count is positive, nothing otherwise. */
  function Segment(count: nat, unit: string): string
  {
    if count > 0 then NatToString(count) + " " + unit + " " else ""
  }

  /** The text of a breakdown: each positive unit from weeks to minutes, then the seconds, always. */
  function Render(b: Breakdown): string
  {
    Segment(b.weeks, "Weeks") + Segment(b.days, "Days") + Segment(b.hours, "Hours")
      + Segment(b.minutes, "Minutes") + NatToString(b.seconds) + " Seconds"
  }

  /** The whole seconds between the clock and a timestamp: chrono's `num_seconds`, truncated toward zero, then `abs`. */
  function ElapsedSeconds(now: Instant, timestamp: int): nat
  {
    var secs := now.secs - timestamp;
    var whole := if secs < 0 && now.nanos > 0 then secs + 1 else secs;
    if whole < 0 then -whole else whole
  }

  /** The elapsed count is the distance between clock and timestamp in nanoseconds, cut down to whole seconds. */
  lemma ElapsedIsTruncatedDistance(now: Instant, timestamp: int)
    ensures var nanos := (now.secs - timestamp) * 1_000_000_000 + now.nanos;
      var distance := if nanos < 0 then -nanos else nanos;
      var s := ElapsedSeconds(now, timestamp);
      s * 1_000_000_000 <= distance < (s + 1) * 1_000_000_000
  {
  }

  /** `time relative`: how far the timestamp is from now, as text. */
  function RelativeTime(options: TimeAgoOptions, now: Instant, chrono: Chrono): Result<string, CommandHandlerError>
  {
    if chrono.validTimestamp(options.timestamp) then
      Success(Render(Decompose(ElapsedSeconds(now, options.timestamp))))
    else
      Failure(RuntimeError(Some(InvalidTimestampMessage(options.timestamp))))
  }

  /**
   * An invalid timestamp is reported by value; for a valid one the text reads back as a
   * normal breakdown whose total is the elapsed whole seconds. The reader also accepts
   * texts `Render` never writes (a zero unit, units out of order); the exact words are
   * the ones `SplitRender` states.
   */
  lemma RelativeTimeReadsBack(options: TimeAgoOptions, now: Instant, chrono: Chrono)
    ensures var r := RelativeTime(options, now, chrono);
      && (!chrono.validTimestamp(options.timestamp) ==>
        r == Failure(RuntimeError(Some(InvalidTimestampMessage(options.timestamp)))))
      && (chrono.validTimestamp(options.timestamp) ==>
        && r.Success?
        && var read := ParseDuration(r.value);
        && read.Some? && read.value.Normal()
        && read.value.TotalSeconds() == ElapsedSeconds(now, options.timestamp))
  {
    if chrono.validTimestamp(options.timestamp) {
      DurationTextRoundTrip(Decompose(ElapsedSeconds(now, options.timestamp)));
    }
  }

  /** The unit texts split around their spaces; stated once so that the solver need not split literals itself. */
  lemma UnitTexts()
    ensures " Weeks " == " " + "Weeks" + " " && " Days " == " " + "Days" + " "
    ensures " Hours " == " " + "Hours" + " " && " Minutes " == " " + "Minutes" + " "
  {
  }

  /** Appending a positive count and its unit, as the source does, appends that unit's segment. */
  lemma AppendSegment(prefix: string, count: nat, unit: string, text: string)
    requires text == " " + unit + " "
    ensures (if count > 0 then prefix + NatToString(count) + text else prefix) == prefix + Segment(count, unit)
  {
    if count > 0 {
      assert prefix + NatToString(count) + text == prefix + (NatToString(count) + " " + unit + " ");
    } else {
      assert prefix + "" == prefix;
    }
  }

  /** `calculate_relative_time` as the source writes it: a remainder cut down unit by unit and a response appended to. */
  method CalculateRelativeTime(options: TimeAgoOptions, now: Instant, chrono: Chrono)
    returns (r: Result<string, CommandHandlerError>)
    ensures r == RelativeTime(options, now, chrono)
  {
    if chrono.validTimestamp(options.timestamp) {
      var response := "";
      var seconds := ElapsedSeconds(now, options.timestamp);
      ghost var total := seconds;

      var weeks := seconds / SECONDS_PER_WEEK;
      seconds := seconds % SECONDS_PER_WEEK;

      var days := seconds / SECONDS_PER_DAY;
      seconds := seconds % SECONDS_PER_DAY;

      var hours := seconds / SECONDS_PER_HOUR;
      seconds := seconds % SECONDS_PER_HOUR;

      var minutes := seconds / SECONDS_PER_MINUTE;
      seconds := seconds % SECONDS_PER_MINUTE;

      UnitTexts();
      if weeks > 0 {
        response := response + NatToString(weeks) + " Weeks ";
      }
      AppendSegment("", weeks, "Weeks", " Weeks ");
      assert "" + Segment(weeks, "Weeks") == Segment(weeks, "Weeks");
      ghost var before := response;
      if days > 0 {
        response := response + NatToString(days) + " Days ";
      }
      AppendSegment(before, days, "Days", " Days ");
      before := response;
      if hours > 0 {
        response := response + NatToString(hours) + " Hours ";
      }
      AppendSegment(before, hours, "Hours", " Hours ");
      before := response;
      if minutes > 0 {
        response := response + NatToString(minutes) + " Minutes ";
      }
      AppendSegment(before, minutes, "Minutes", " Minutes ");
      response := response + NatToString(seconds) + " Seconds";
      assert response == Render(Breakdown(weeks, days, hours, minutes, seconds));
      r := Success(response);
      DecomposeByUnits(total);
    } else {
      r := Failure(RuntimeError(Some(InvalidTimestampMessage(options.timestamp))));
    }
  }

  // ------------------------------------------------------------ reading a duration back

  const UNITS: seq<string> := ["Weeks", "Days", "Hours", "Minutes", "Seconds"]

  function UnitWords(count: nat, unit: string): seq<string>
  {
    if count > 0 then [NatToString(count), unit] else []
  }

  /** The words of a rendered breakdown, in order. */
  function Words(b: Breakdown): seq<string>
  {
    UnitWords(b.weeks, "Weeks") + UnitWords(b.days, "Days") + UnitWords(b.hours, "Hours")
      + UnitWords(b.minutes, "Minutes") + [NatToString(b.seconds), "Seconds"]
  }

  /** Reads `<n> <Unit>` pairs ending with the seconds pair; a unit left out reads as zero. */
  function FromWords(words: seq<string>): Option<Breakdown>
    decreases |words|
  {
    if |words| < 2 then None
    else match ParseNat(words[0])
      case None => None
      case Some(n) =>
        if |words| == 2 then
          if words[1] == "Seconds" then Some(Breakdown(0, 0, 0, 0, n)) else None
        else match FromWords(words[2..])
          case None => None
          case Some(b) =>
            if words[1] == "Weeks" then Some(b.(weeks := n))
            else if words[1] == "Days" then Some(b.(days := n))
            else if words[1] == "Hours" then Some(b.(hours := n))
            else if words[1] == "Minutes" then Some(b.(minutes := n))
            else None
  }

  /** Reads a duration text back into its breakdown. */
  function ParseDuration(s: string): Option<Breakdown>
  {
    FromWords(Split(s, ' '))
  }

  lemma RenderNested(b: Breakdown)
    ensures Render(b) == Segment(b.weeks, "Weeks") + (Segment(b.days, "Days") + (Segment(b.hours, "Hours")
      + (Segment(b.minutes, "Minutes") + (NatToString(b.seconds) + " Seconds"))))
  {
    var last := NatToString(b.seconds);
    assert Render(b) == Segment(b.weeks, "Weeks") + Segment(b.days, "Days") + Segment(b.hours, "Hours")
      + Segment(b.minutes, "Minutes") + (last + " Seconds");
    ConcatNested(Segment(b.weeks, "Weeks"), Segment(b.days, "Days"), Segment(b.hours, "Hours"),
      Segment(b.minutes, "Minutes"), last + " Seconds");
  }

  /** The text always ends with the seconds and their unit, so it never ends with a space. */
  lemma RenderEndsWithSeconds(b: Breakdown)
    ensures var s, last := Render(b), NatToString(b.seconds) + " Seconds";
      && |s| >= |last| && s[|s| - |last|..] == last
      && s[|s| - 1] == 's'
  {
    var units := Segment(b.weeks, "Weeks") + Segment(b.days, "Days") + Segment(b.hours, "Hours")
      + Segment(b.minutes, "Minutes");
    var last := NatToString(b.seconds) + " Seconds";
    ConcatAssoc(units, NatToString(b.seconds), " Seconds");
    assert Render(b) == units + last;
    assert (units + last)[|units|..] == last;
  }

  /** A segment splits into its count and its unit. */
  lemma SplitSegment(count: nat, unit: string, rest: string)
    requires ' ' !in unit
    ensures Split(Segment(count, unit) + rest, ' ') == UnitWords(count, unit) + Split(rest, ' ')
  {
    if count > 0 {
      var digits := NatToString(count);
      NatToStringOnlyDigits(count, ' ');
      assert Segment(count, unit) + rest == digits + [' '] + (unit + [' '] + rest);
      SplitAfterPiece(digits, ' ', unit + [' '] + rest);
      SplitAfterPiece(unit, ' ', rest);
    } else {
      assert Segment(count, unit) + rest == rest;
    }
  }

  lemma SplitSeconds(n: nat)
    ensures Split(NatToString(n) + " Seconds", ' ') == [NatToString(n), "Seconds"]
  {
    var last := NatToString(n);
    NatToStringOnlyDigits(n, ' ');
    assert last + " Seconds" == last + [' '] + "Seconds";
    SplitPair(last, ' ', "Seconds");
  }

  lemma WordsNested(b: Breakdown)
    ensures Words(b) == UnitWords(b.weeks, "Weeks") + (UnitWords(b.days, "Days") + (UnitWords(b.hours, "Hours")
      + (UnitWords(b.minutes, "Minutes") + [NatToString(b.seconds), "Seconds"])))
  {
  }

  /** A rendered duration splits on spaces into its words. */
  lemma SplitRender(b: Breakdown)
    ensures Split(Render(b), ' ') == Words(b)
  {
    var tail := NatToString(b.seconds) + " Seconds";
    var m := Segment(b.minutes, "Minutes") + tail;
    var h := Segment(b.hours, "Hours") + m;
    var d := Segment(b.days, "Days") + h;
    SplitSeconds(b.seconds);
    SplitSegment(b.minutes, "Minutes", tail);
    SplitSegment(b.hours, "Hours", m);
    SplitSegment(b.days, "Days", h);
    SplitSegment(b.weeks, "Weeks", d);
    RenderNested(b);
    WordsNested(b);
  }

  /** A leading `<n> <Unit>` pair sets that unit of what the rest reads as. */
  lemma FromWordsPair(n: nat, unit: string, rest: seq<string>, b: Breakdown)
    requires |rest| >= 2 && FromWords(rest) == Some(b)
    ensures FromWords([NatToString(n), unit] + rest) ==
      if unit == "Weeks" then Some(b.(weeks := n))
      else if unit == "Days" then Some(b.(days := n))
      else if unit == "Hours" then Some(b.(hours := n))
      else if unit == "Minutes" then Some(b.(minutes := n))
      else None
  {
    ParseNatToString(n);
    assert ([NatToString(n), unit] + rest)[2..] == rest;
  }

  /** A unit with a zero count adds no words and leaves the reading of the rest unchanged. */
  lemma FromWordsStage(count: nat, unit: string, rest: seq<string>, b: Breakdown, updated: Breakdown)
    requires |rest| >= 2 && FromWords(rest) == Some(b)
    requires count > 0 ==> FromWords([NatToString(count), unit] + rest) == Some(updated)
    requires count == 0 ==> updated == b
    ensures FromWords(UnitWords(count, unit) + rest) == Some(updated)
  {
    if count == 0 {
      assert UnitWords(count, unit) + rest == rest;
    }
  }

  lemma FromWordsWords(b: Breakdown)
    ensures FromWords(Words(b)) == Some(b)
  {
    var secondsWords := [NatToString(b.seconds), "Seconds"];
    var b4 := Breakdown(0, 0, 0, 0, b.seconds);
    assert FromWords(secondsWords) == Some(b4) by { ParseNatToString(b.seconds); }
    var minutesWords := UnitWords(b.minutes, "Minutes") + secondsWords;
    var b3 := b4.(minutes := b.minutes);
    FromWordsPair(b.minutes, "Minutes", secondsWords, b4);
    FromWordsStage(b.minutes, "Minutes", secondsWords, b4, b3);
    var hoursWords := UnitWords(b.hours, "Hours") + minutesWords;
    var b2 := b3.(hours := b.hours);
    FromWordsPair(b.hours, "Hours", minutesWords, b3);
    FromWordsStage(b.hours, "Hours", minutesWords, b3, b2);
    var daysWords := UnitWords(b.days, "Days") + hoursWords;
    var b1 := b2.(days := b.days);
    FromWordsPair(b.days, "Days", hoursWords, b2);
    FromWordsStage(b.days, "Days", hoursWords, b2, b1);
    FromWordsPair(b.weeks, "Weeks", daysWords, b1);
    FromWordsStage(b.weeks, "Weeks", daysWords, b1, b);
    WordsNested(b);
  }

  /** The duration text loses nothing: it reads back to the breakdown it was written from. */
  lemma DurationTextRoundTrip(b: Breakdown)
    ensures ParseDuration(Render(b)) == Some(b)
  {
    SplitRender(b);
    FromWordsWords(b);
  }

  lemma NumberIsNotUnit(n: nat)
    ensures NatToString(n) !in UNITS
  {
    forall unit | unit in UNITS ensures NatToString(n) != unit {
      NatToStringOnlyDigits(n, unit[0]);
      assert unit[0] !in NatToString(n);
    }
  }

  /** A unit name occurs among a unit's words exactly when it is that unit and the count is positive. */
  lemma UnitWordsMention(count: nat, unit: string, u: string)
    requires u in UNITS
    ensures u in UnitWords(count, unit) <==> count > 0 && u == unit
  {
    NumberIsNotUnit(count);
  }

  /**
   * A unit from weeks to minutes appears in the text exactly when its count is positive,
   * whatever the other counts are; the seconds always appear.
   */
  lemma UnitShownIffPositive(b: Breakdown)
    ensures var words := Split(Render(b), ' ');
      && ("Weeks" in words <==> b.weeks > 0)
      && ("Days" in words <==> b.days > 0)
      && ("Hours" in words <==> b.hours > 0)
      && ("Minutes" in words <==> b.minutes > 0)
      && "Seconds" in words
  {
    SplitRender(b);
    NumberIsNotUnit(b.seconds);
    forall u | u in UNITS
      ensures u in Words(b) <==>
        ((u == "Weeks" && b.weeks > 0) || (u == "Days" && b.days > 0)
        || (u == "Hours" && b.hours > 0) || (u == "Minutes" && b.minutes > 0) || u == "Seconds")
    {
      UnitWordsMention(b.weeks, "Weeks", u);
      UnitWordsMention(b.days, "Days", u);
      UnitWordsMention(b.hours, "Hours", u);
      UnitWordsMention(b.minutes, "Minutes", u);
    }
  }

  /** A zero distance shows only the seconds. */
  lemma RenderZero()
    ensures Render(Decompose(0)) == "0 Seconds"
  {
    assert Decompose(0) == Breakdown(0, 0, 0, 0, 0);
    assert NatToString(0) == "0";
    assert Render(Breakdown(0, 0, 0, 0, 0)) == "" + "" + "" + "" + "0" + " Seconds";
  }

  lemma DecomposeDayAndMinute()
    ensures Decompose(86460) == Breakdown(0, 1, 0, 1, 0)
  {
    DecomposeUnique(Breakdown(0, 1, 0, 1, 0));
  }

  /** Units with a zero count are skipped, while zero seconds still show. */
  lemma RenderDayAndMinute()
    ensures Render(Breakdown(0, 1, 0, 1, 0)) == "1 Days 1 Minutes 0 Seconds"
  {
    SmallNumerals();
    assert Render(Breakdown(0, 1, 0, 1, 0)) == "1 Days " + "1 Minutes " + "0 Seconds";
  }

  lemma SmallNumerals()
    ensures NatToString(0) == "0" && NatToString(1) == "1" && NatToString(4) == "4" && NatToString(11) == "11"
    ensures NatToString(29) == "29" && NatToString(35) == "35"
  {
  }

  lemma DecomposeEveryUnit()
    ensures Decompose(2546975) == Breakdown(4, 1, 11, 29, 35)
  {
    DecomposeUnique(Breakdown(4, 1, 11, 29, 35));
  }

  /** Every unit shows when every count is positive. */
  lemma RenderEveryUnit()
    ensures Render(Breakdown(4, 1, 11, 29, 35)) == "4 Weeks 1 Days 11 Hours 29 Minutes 35 Seconds"
  {
    SmallNumerals();
    assert Segment(4, "Weeks") == "4 Weeks " && Segment(1, "Days") == "1 Days ";
    assert Segment(11, "Hours") == "11 Hours " && Segment(29, "Minutes") == "29 Minutes ";
    assert Render(Breakdown(4, 1, 11, 29, 35)) == "4 Weeks " + "1 Days " + "11 Hours " + "29 Minutes " + "35 Seconds";
    EveryUnitText();
  }

  /** The example's segments spelled as one text; kept apart so the solver checks it on its own. */
  lemma EveryUnitText()
    ensures "4 Weeks " + "1 Days " + "11 Hours " + "29 Minutes " + "35 Seconds"
         == "4 Weeks 1 Days 11 Hours 29 Minutes 35 Seconds"
  {
  }

  /** The `start` option makes no difference: the distance is always measured from the clock. */
  lemma RelativeIgnoresStart(timestamp: Int64, start1: Option<Int64>, start2: Option<Int64>, now: Instant, chrono: Chrono)
    ensures RelativeTime(TimeAgoOptions(timestamp, start1), now, chrono)
         == RelativeTime(TimeAgoOptions(timestamp, start2), now, chrono)
  {
  }

  lemma ElapsedWholeSeconds(now: Instant, distance: nat)
    requires now.nanos == 0
    ensures ElapsedSeconds(now, now.secs - distance) == distance
    ensures ElapsedSeconds(now, now.secs + distance) == distance
  {
  }

  /**
   * On a whole-second clock, timestamps the same distance in the past and in the future
   * read the same.
   */
  lemma RelativeIsSymmetric(now: Instant, distance: nat, chrono: Chrono)
    requires now.nanos == 0
    requires -0x8000_0000_0000_0000 <= now.secs - distance && now.secs + distance < 0x8000_0000_0000_0000
    requires chrono.validTimestamp(now.secs - distance) && chrono.validTimestamp(now.secs + distance)
    ensures RelativeTime(TimeAgoOptions(now.secs - distance, None), now, chrono)
         == RelativeTime(TimeAgoOptions(now.secs + distance, None), now, chrono)
  {
    ElapsedWholeSeconds(now, distance);
    var text := Render(Decompose(distance));
    assert RelativeTime(TimeAgoOptions(now.secs - distance, None), now, chrono) == Success(text);
    assert RelativeTime(TimeAgoOptions(now.secs + distance, None), now, chrono) == Success(text);
  }

  /** Mid-second, a future timestamp reads one second closer than a past one the same whole seconds away. */
  lemma ElapsedTruncates()
    ensures ElapsedSeconds(Instant(100, 500_000_000), 90) == 10
    ensures ElapsedSeconds(Instant(100, 500_000_000), 110) == 9
  {
  }

  lemma RelativeScenario(chrono: Chrono)
    requires chrono.validTimestamp(1764592225)
    ensures RelativeTime(TimeAgoOptions(1764592225, None), Instant(1767139200, 0), chrono)
         == Success("4 Weeks 1 Days 11 Hours 29 Minutes 35 Seconds")
  {
    assert ElapsedSeconds(Instant(1767139200, 0), 1764592225) == 2546975;
    DecomposeEveryUnit();
    RenderEveryUnit();
  }

  // ------------------------------------------------------------ dispatch

  /**
   * `handle_method`: each subcommand goes to its operation. Every failure is a runtime
   * error with a message, and that message is what the error displays; only `time format`
   * can panic.
   */
  function HandleMethod(timeMethod: TimeMethod, now: Instant, chrono: Chrono): (r: Outcome)
    ensures r.Returned? && r.result.Failure? ==>
      var e := r.result.error;
      e.RuntimeError? && e.message.Some? && e.Display() == e.message.value
    ensures r.Panicked? ==> timeMethod.Format?
    ensures timeMethod.Now? ==> r == Returned(GetCurrentDatetime(timeMethod.nowOptions, now, chrono))
    ensures timeMethod.Unix? ==> r.Returned? && r.result.Success? && ParseInt(r.result.value) == Some(now.secs)
    ensures timeMethod.FromUnix? ==> r == Returned(ConvertFromUnix(timeMethod.fromUnixOptions, chrono))
    ensures timeMethod.ToUnix? ==> r == Returned(ConvertToUnix(timeMethod.toUnixOptions, chrono))
    ensures timeMethod.Relative? ==> r == Returned(RelativeTime(timeMethod.relativeOptions, now, chrono))
    ensures timeMethod.Format? ==> r == FormatDate(timeMethod.formatOptions, chrono)
    ensures timeMethod.Tz? ==> r == Returned(Success(TzListing(chrono.zones)))
  {
    match timeMethod
    case Now(options) => Returned(GetCurrentDatetime(options, now, chrono))
    case Unix =>
      ParseIntToString(now.secs);
      Returned(Success(IntToString(now.secs)))
    case FromUnix(options) => Returned(ConvertFromUnix(options, chrono))
    case ToUnix(options) => Returned(ConvertToUnix(options, chrono))
    case Relative(options) => Returned(RelativeTime(options, now, chrono))
    case Format(options) => FormatDate(options, chrono)
    case Tz => Returned(Success(TzListing(chrono.zones)))
  }
}
