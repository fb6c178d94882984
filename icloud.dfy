/**
 * The destination's text protocol (icloud_integration.py): AppleScript string escaping,
 * default end dates, the `date "..."` literal, the result strings of each script, and
 * the `COUNT:n|||EVENTS:...` listing with its failure classification.
 * Running a script is outside the model: `bridge(n, script)` is what the n-th script
 * run by the process answers.
 */
module Icloud {
  import opened Basics
  import opened Text
  import opened Chrono

  // ---------------------------------------------------------------- escaping

  /** The escape sequence of one character. */
  function EscapeChar(c: char): string {
    if c == '\\' then "\\\\"
    else if c == '"' then "\\\""
    else if c == '\n' then "\\n"
    else if c == '\r' then "\\r"
    else if c == '\t' then "\\t"
    else if c == '\'' then "\\'"
    else [c]
  }

  /** `_escape_string`: six replaces, in this order. */
  function Escape(text: string): string {
    if text == "" then ""
    else
      Replace(Replace(Replace(Replace(Replace(Replace(
        text, "\\", "\\\\"), "\"", "\\\""), "\n", "\\n"), "\r", "\\r"), "\t", "\\t"), "'", "\\'")
  }

  /** The replace chain as a composition of per-character maps. */
  function Chain(s: string): string {
    FlatMap(Substitute('\'', "\\'"), FlatMap(Substitute('\t', "\\t"), FlatMap(Substitute('\r', "\\r"),
      FlatMap(Substitute('\n', "\\n"), FlatMap(Substitute('"', "\\\""), FlatMap(Substitute('\\', "\\\\"), s))))))
  }

  lemma EscapeChain(text: string)
    requires text != ""
    ensures Escape(text) == Chain(text)
  {
    var s1 := Replace(text, "\\", "\\\\");
    ReplaceChar(text, '\\', "\\\\");
    var s2 := Replace(s1, "\"", "\\\"");
    ReplaceChar(s1, '"', "\\\"");
    var s3 := Replace(s2, "\n", "\\n");
    ReplaceChar(s2, '\n', "\\n");
    var s4 := Replace(s3, "\r", "\\r");
    ReplaceChar(s3, '\r', "\\r");
    var s5 := Replace(s4, "\t", "\\t");
    ReplaceChar(s4, '\t', "\\t");
    ReplaceChar(s5, '\'', "\\'");
  }

  lemma {:induction false} ChainAppend(a: string, b: string)
    ensures Chain(a + b) == Chain(a) + Chain(b)
  {
    var f1, f2, f3 := Substitute('\\', "\\\\"), Substitute('"', "\\\""), Substitute('\n', "\\n");
    var f4, f5, f6 := Substitute('\r', "\\r"), Substitute('\t', "\\t"), Substitute('\'', "\\'");
    FlatMapAppend(f1, a, b);
    FlatMapAppend(f2, FlatMap(f1, a), FlatMap(f1, b));
    FlatMapAppend(f3, FlatMap(f2, FlatMap(f1, a)), FlatMap(f2, FlatMap(f1, b)));
    FlatMapAppend(f4, FlatMap(f3, FlatMap(f2, FlatMap(f1, a))), FlatMap(f3, FlatMap(f2, FlatMap(f1, b))));
    FlatMapAppend(f5, FlatMap(f4, FlatMap(f3, FlatMap(f2, FlatMap(f1, a)))),
                      FlatMap(f4, FlatMap(f3, FlatMap(f2, FlatMap(f1, b)))));
    FlatMapAppend(f6, FlatMap(f5, FlatMap(f4, FlatMap(f3, FlatMap(f2, FlatMap(f1, a))))),
                      FlatMap(f5, FlatMap(f4, FlatMap(f3, FlatMap(f2, FlatMap(f1, b))))));
  }

  /** The substitution rewrites its own character. */
  lemma Hit(c: char, r: string)
    ensures FlatMap(Substitute(c, r), [c]) == r
  {
    assert [c][1..] == [];
  }

  lemma ChainChar(c: char)
    ensures Chain([c]) == EscapeChar(c)
  {
    var r1, r2, r3, r4, r5, r6 := "\\\\", "\\\"", "\\n", "\\r", "\\t", "\\'";
    if c == '\\' {
      Hit(c, r1);
      SubstituteAbsent(r1, '"', r2);
      SubstituteAbsent(r1, '\n', r3);
      SubstituteAbsent(r1, '\r', r4);
      SubstituteAbsent(r1, '\t', r5);
      SubstituteAbsent(r1, '\'', r6);
    } else if c == '"' {
      SubstituteAbsent([c], '\\', r1);
      Hit(c, r2);
      SubstituteAbsent(r2, '\n', r3);
      SubstituteAbsent(r2, '\r', r4);
      SubstituteAbsent(r2, '\t', r5);
      SubstituteAbsent(r2, '\'', r6);
    } else if c == '\n' {
      SubstituteAbsent([c], '\\', r1);
      SubstituteAbsent([c], '"', r2);
      Hit(c, r3);
      SubstituteAbsent(r3, '\r', r4);
      SubstituteAbsent(r3, '\t', r5);
      SubstituteAbsent(r3, '\'', r6);
    } else if c == '\r' {
      SubstituteAbsent([c], '\\', r1);
      SubstituteAbsent([c], '"', r2);
      SubstituteAbsent([c], '\n', r3);
      Hit(c, r4);
      SubstituteAbsent(r4, '\t', r5);
      SubstituteAbsent(r4, '\'', r6);
    } else if c == '\t' {
      SubstituteAbsent([c], '\\', r1);
      SubstituteAbsent([c], '"', r2);
      SubstituteAbsent([c], '\n', r3);
      SubstituteAbsent([c], '\r', r4);
      Hit(c, r5);
      SubstituteAbsent(r5, '\'', r6);
    } else if c == '\'' {
      SubstituteAbsent([c], '\\', r1);
      SubstituteAbsent([c], '"', r2);
      SubstituteAbsent([c], '\n', r3);
      SubstituteAbsent([c], '\r', r4);
      SubstituteAbsent([c], '\t', r5);
      Hit(c, r6);
    } else {
      SubstituteAbsent([c], '\\', r1);
      SubstituteAbsent([c], '"', r2);
      SubstituteAbsent([c], '\n', r3);
      SubstituteAbsent([c], '\r', r4);
      SubstituteAbsent([c], '\t', r5);
      SubstituteAbsent([c], '\'', r6);
    }
  }

  lemma {:induction false} ChainIsCharMap(s: string)
    ensures Chain(s) == FlatMap(EscapeChar, s)
  {
    if s != [] {
      assert s == [s[0]] + s[1..];
      ChainAppend([s[0]], s[1..]);
      ChainChar(s[0]);
      ChainIsCharMap(s[1..]);
    }
  }

  /** The replace chain is the per-character escape map. */
  lemma EscapeIsCharMap(text: string)
    ensures Escape(text) == FlatMap(EscapeChar, text)
  {
    if text != "" {
      EscapeChain(text);
      ChainIsCharMap(text);
    }
  }

  /** The escaped text has no raw newline, carriage return or tab. */
  lemma {:induction false} EscapeNoControl(text: string)
    ensures '\n' !in Escape(text) && '\r' !in Escape(text) && '\t' !in Escape(text)
  {
    EscapeIsCharMap(text);
    CharMapNoControl(text);
  }

  lemma {:induction false} CharMapNoControl(s: string)
    ensures '\n' !in FlatMap(EscapeChar, s) && '\r' !in FlatMap(EscapeChar, s) && '\t' !in FlatMap(EscapeChar, s)
  {
    if s != [] {
      CharMapNoControl(s[1..]);
    }
  }

  /** Reading an escaped text back: a backslash and the next character stand for one
      character (`n`, `r`, `t` for the control characters, anything else for itself). */
  function Unescape(s: string): string {
    if s == [] then []
    else if s[0] == '\\' && |s| >= 2 then [Unescaped(s[1])] + Unescape(s[2..])
    else [s[0]] + Unescape(s[1..])
  }

  function Unescaped(c: char): char {
    if c == 'n' then '\n' else if c == 'r' then '\r' else if c == 't' then '\t' else c
  }

  lemma UnescapeChar(c: char, rest: string)
    ensures Unescape(EscapeChar(c) + rest) == [c] + Unescape(rest)
  {
    var e := EscapeChar(c);
    if |e| == 2 {
      assert (e + rest)[2..] == rest;
    } else {
      assert (e + rest)[1..] == rest;
    }
  }

  /** Escaping loses nothing: reading the escaped text back gives the original. */
  lemma {:induction false} EscapeRoundTrip(text: string)
    ensures Unescape(Escape(text)) == text
  {
    EscapeIsCharMap(text);
    CharMapRoundTrip(text);
  }

  lemma {:induction false} CharMapRoundTrip(s: string)
    ensures Unescape(FlatMap(EscapeChar, s)) == s
  {
    if s != [] {
      UnescapeChar(s[0], FlatMap(EscapeChar, s[1..]));
      CharMapRoundTrip(s[1..]);
    }
  }

  // ---------------------------------------------------------------- dates

  /** A start or end value as the destination receives it: a date or datetime, or text. */
  datatype When = At(value: Temporal) | Text(text: string)

  predicate ValidWhen(v: Option<When>) {
    v.Some? && v.value.At? ==> v.value.value.Valid()
  }

  /** Python truthiness: `None` and `""` are false, dates and datetimes are true. */
  predicate Truthy(v: Option<When>) {
    v.Some? && (v.value.Text? ==> v.value.text != "")
  }

  /** `fromisoformat(s.replace('Z', '+00:00'))`. */
  function ParseZulu(s: string): Option<DateTime> {
    ParseIso(Replace(s, "Z", "+00:00"))
  }

  datatype Ended = Ensured(start: Option<When>, end: Option<When>) | Overflowed

  /** The source's test for a start "without a time": hour, minute and second all zero
      (the microsecond plays no part). */
  predicate AtMidnight(t: DateTime) {
    t.hour == 0 && t.minute == 0 && t.second == 0
  }

  /** The end for a start given as a datetime: 23:59:59 the same day at midnight, one
      hour later otherwise (`Overflowed` where Python raises `OverflowError`). */
  function EndAfter(start: Option<When>, t: DateTime): (r: Ended)
    requires t.Valid()
    ensures r.Ensured? ==> r.start == start && r.end.Some? && r.end.value.At? && r.end.value.value.Moment?
    ensures r.Ensured? ==> r.end.value.value.dt.Valid()
    ensures r.Overflowed? <==> !AtMidnight(t) && t.date == Date(9999, 12, 31) && t.hour == 23
    ensures r.Ensured? && AtMidnight(t) ==> r.end.value.value.dt == t.(hour := 23, minute := 59, second := 59)
    ensures r.Ensured? && !AtMidnight(t) ==>
              var u := r.end.value.value.dt;
              WallSeconds(u) == WallSeconds(t) + 3600 && u.tz == t.tz && u.micro == t.micro
  {
    if AtMidnight(t) then
      Ensured(start, Some(At(Moment(t.(hour := 23, minute := 59, second := 59)))))
    else
      match AddHour(t)
      case None => Overflowed
      case Some(u) => Ensured(start, Some(At(Moment(u))))
  }

  /** `_ensure_end_date`. */
  function EnsureEndDate(start: Option<When>, end: Option<When>): (r: Ended)
    requires ValidWhen(start) && ValidWhen(end)
    ensures Truthy(end) || !Truthy(start) ==> r == Ensured(start, end)
    ensures r.Ensured? ==> r.start == start && ValidWhen(r.end)
    // a date ends at 23:59:59 of the same day, as a naive datetime
    ensures !Truthy(end) && start.Some? && start.value.At? && start.value.value.Day? ==>
              r == Ensured(start, Some(At(Moment(Midnight(start.value.value.date).(hour := 23, minute := 59, second := 59)))))
    // a datetime, or a text that parses, ends as EndAfter says
    ensures !Truthy(end) && start.Some? && start.value.At? && start.value.value.Moment? ==>
              r == EndAfter(start, start.value.value.dt)
    ensures !Truthy(end) && Truthy(start) && start.value.Text? && ParseZulu(start.value.text).Some? ==>
              r == EndAfter(start, ParseZulu(start.value.text).value)
    // a text that does not parse gets no end
    ensures !Truthy(end) && Truthy(start) && start.value.Text? && ParseZulu(start.value.text).None? ==>
              r == Ensured(start, None)
  {
    if !Truthy(end) && Truthy(start) then
      match start.value
      case At(Day(d)) => Ensured(start, Some(At(Moment(DateTime(d, 23, 59, 59, 0, Naive)))))
      case At(Moment(t)) => EndAfter(start, t)
      case Text(s) =>
        match ParseZulu(s)
        case None => Ensured(start, None)
        case Some(t) => EndAfter(start, t)
    else Ensured(start, end)
  }

  /** Seconds since 0001-01-01 on a value's own wall clock. */
  function WallSeconds(t: DateTime): int
    requires t.Valid()
  {
    WallMinutes(t) * 60 + t.second
  }

  /** A completed end lies after the start, on the same clock: for a date, 23:59:59 of
      that day; for a datetime, later by one hour or up to the day's 23:59:59. */
  lemma CompletedEndAfterStart(start: Temporal, end: Option<When>)
    requires start.Valid() && !Truthy(end)
    requires EnsureEndDate(Some(At(start)), end).Ensured?
    ensures var e := EnsureEndDate(Some(At(start)), end).end;
            e.Some? && e.value.At? && e.value.value.Moment? && e.value.value.dt.Valid()
            && var u := e.value.value.dt;
               match start
               case Day(d) => u.date == d && u.tz == Naive && WallSeconds(u) == WallSeconds(Midnight(d)) + 86399
               case Moment(t) =>
                 && u.tz == t.tz && u.micro == t.micro && WallSeconds(t) < WallSeconds(u) <= WallSeconds(t) + 86399
                 && (AtMidnight(t) ==> u.date == t.date && WallSeconds(u) == WallSeconds(t) + 86399)
                 && (!AtMidnight(t) ==> WallSeconds(u) == WallSeconds(t) + 3600)
  {
  }

  /** At 23:00 or later on 9999-12-31 a start that is not at midnight cannot be completed. */
  lemma EnsureEndDateOverflow(t: DateTime)
    requires t.Valid() && t.date == Date(9999, 12, 31) && t.hour == 23
    ensures EnsureEndDate(Some(At(Moment(t))), None) == Overflowed
  {
  }

  /** `date "YYYY-MM-DD HH:MM:SS"`. */
  function DateLiteral(t: DateTime): (s: string)
    requires t.Valid()
    ensures |s| == 26
  {
    "date \"" + Strftime(t) + "\""
  }

  /** The literal spells out the wall clock. */
  lemma WallLiteral(t: DateTime)
    requires t.Valid()
    ensures DateLiteral(t) == "date \"" + IsoDate(t.date) + " " + Pad(t.hour, 2) + ":" + Pad(t.minute, 2) + ":" + Pad(t.second, 2) + "\""
  {
  }

  lemma MidnightLiteral(d: Date)
    requires d.Valid()
    ensures DateLiteral(Midnight(d)) == "date \"" + IsoDate(d) + " 00:00:00\""
  {
    assert Pad(0, 2) == "00" by {
      assert Pad(0, 1) == Pad(0, 0) + "0";
    }
    WallLiteral(Midnight(d));
  }

  /** `_format_date_for_applescript`: `None` for a falsy or unparseable value; a date is
      taken at midnight; an offset is dropped, not converted. */
  function FormatForScript(v: Option<When>): (r: Option<string>)
    requires ValidWhen(v)
    ensures !Truthy(v) ==> r.None?
    // a date or datetime always formats; a date is taken at midnight
    ensures v.Some? && v.value.At? ==> r.Some?
    ensures v.Some? && v.value.At? && v.value.value.Day? ==>
              r == Some("date \"" + IsoDate(v.value.value.date) + " 00:00:00\"")
    // a datetime keeps its wall clock: date, hour, minute and second
    ensures v.Some? && v.value.At? && v.value.value.Moment? ==>
              var t := v.value.value.dt;
              r == Some("date \"" + IsoDate(t.date) + " " + Pad(t.hour, 2) + ":" + Pad(t.minute, 2) + ":" + Pad(t.second, 2) + "\"")
    // a text formats iff it parses
    ensures Truthy(v) && v.value.Text? ==>
              (r.Some? <==> (if 'T' in v.value.text then ParseZulu(v.value.text) else ParseIso(v.value.text)).Some?)
  {
    if !Truthy(v) then None
    else
      match v.value
      case At(Day(d)) => MidnightLiteral(d); Some(DateLiteral(Midnight(d)))
      case At(Moment(t)) => WallLiteral(t.(tz := Naive)); Some(DateLiteral(t.(tz := Naive)))
      case Text(s) =>
        match (if 'T' in s then ParseZulu(s) else ParseIso(s))
        case None => None
        case Some(t) => Some(DateLiteral(t.(tz := Naive)))
  }

  /** The offset plays no part: two datetimes with the same wall clock format alike. */
  lemma FormatDropsOffset(t: DateTime, z: Tz)
    requires t.Valid() && (z.Offset? ==> -1440 < z.minutes < 1440)
    ensures FormatForScript(Some(At(Moment(t)))) == FormatForScript(Some(At(Moment(t.(tz := z)))))
  {
  }

  lemma NoZuluInIso(t: DateTime)
    requires t.Valid()
    ensures 'Z' !in IsoDateTime(t) && 'T' in IsoDateTime(t)
  {
    var s := IsoDateTime(t);
    assert s[10] == 'T';
    var o := IsoOffset(t.tz);
    assert 'Z' !in IsoDate(t.date) && 'Z' !in IsoTime(t) && 'Z' !in o by {
      PadNoZulu();
    }
  }

  lemma PadNoZulu()
    ensures forall n: nat, w: nat :: 'Z' !in Pad(n, w)
  {
    forall n: nat, w: nat ensures 'Z' !in Pad(n, w) {
      assert AllDigits(Pad(n, w));
    }
  }

  /** A datetime and its `isoformat()` text format alike. */
  lemma FormatIsoText(t: DateTime)
    requires t.Valid()
    ensures FormatForScript(Some(Text(IsoDateTime(t)))) == FormatForScript(Some(At(Moment(t))))
  {
    var s := IsoDateTime(t);
    NoZuluInIso(t);
    ReplaceChar(s, 'Z', "+00:00");
    SubstituteAbsent(s, 'Z', "+00:00");
    ParseIsoRoundTrip(t);
    assert ParseZulu(s) == Some(t);
    assert FormatForScript(Some(Text(s))) == Some(DateLiteral(t.(tz := Naive)));
  }

  // ---------------------------------------------------------------- scripts and their results

  /** The scripts the destination runs, with the values spliced into them. */
  datatype Script =
    | CreateScript(calendar: string, summary: string, description: string, location: string, start: string, end: string)
    | UpdateScript(calendar: string, summary: string, description: string, location: string, start: string, end: string)
    | DeleteBySummaryScript(calendar: string, summary: string)
    | ListScript(calendar: string)
    | ClearScript(calendar: string)

  /** What running a script gave: an exit status with its output, a timeout, or a failure
      to run at all. */
  datatype Reply = Exited(code: int, stdout: string, stderr: string) | TimedOut | Crashed(message: string)

  /** The text `_run_applescript` reports on a timeout. */
  const TimeoutText: string := "执行超时"

  /** `_run_applescript`: `(True, stripped stdout)` on exit status 0, otherwise `False` with
      the error text. */
  function RunOutcome(reply: Reply): (r: (bool, string))
    ensures r.0 <==> reply.Exited? && reply.code == 0
    ensures r.0 ==> r.1 == Strip(reply.stdout) && Unpadded(r.1)
    ensures reply.Exited? && reply.code != 0 ==> r.1 == reply.stderr
    ensures reply.TimedOut? ==> r.1 == TimeoutText
    ensures reply.Crashed? ==> r.1 == reply.message
  {
    match reply
    case Exited(code, out, err) => if code == 0 then (true, Strip(out)) else (false, err)
    case TimedOut => (false, TimeoutText)
    case Crashed(m) => (false, m)
  }

  /** The keys of the event dictionary the destination reads. */
  datatype Fields = Fields(summary: string, description: string, location: string, start: Option<When>, end: Option<When>)

  predicate ValidFields(e: Fields) {
    ValidWhen(e.start) && ValidWhen(e.end)
  }

  datatype Prepared = Skipped | Raises | Ready(start: string, end: string)

  /** The date preparation of `create_event`/`update_event`: complete the end, then format both
      ends; either end missing or unformattable means no script is run. */
  function PrepareDates(e: Fields): (r: Prepared)
    requires ValidFields(e)
    ensures r.Raises? <==> EnsureEndDate(e.start, e.end).Overflowed?
    ensures r.Ready? ==> Truthy(e.start) && FormatForScript(e.start) == Some(r.start)
    // the end literal is the formatted completed end
    ensures r.Ready? ==> var t := EnsureEndDate(e.start, e.end).end;
                         Truthy(t) && FormatForScript(t) == Some(r.end)
    // no script exactly when an end is missing or cannot be formatted
    ensures r.Skipped? <==>
              && EnsureEndDate(e.start, e.end).Ensured?
              && var t := EnsureEndDate(e.start, e.end).end;
                 !Truthy(e.start) || !Truthy(t) || FormatForScript(e.start).None? || FormatForScript(t).None?
  {
    var ended := EnsureEndDate(e.start, e.end);
    if ended.Overflowed? then Raises
    else if !Truthy(e.start) || !Truthy(ended.end) then Skipped
    else
      var (a, b) := (FormatForScript(e.start), FormatForScript(ended.end));
      if a.Some? && b.Some? then Ready(a.value, b.value) else Skipped
  }

  /** The script `create_event` runs, if it runs one. */
  function CreateScriptFor(calendar: string, e: Fields): (r: Option<Script>)
    requires ValidFields(e)
    ensures r.Some? <==> PrepareDates(e).Ready?
    ensures r.Some? ==> r.value.CreateScript? && r.value.calendar == calendar
    ensures r.Some? ==> r.value.start == PrepareDates(e).start && r.value.end == PrepareDates(e).end
  {
    match PrepareDates(e)
    case Ready(a, b) => Some(CreateScript(calendar, Escape(e.summary), Escape(e.description), Escape(e.location), a, b))
    case _ => None
  }

  /** The text fields of a create script read back to the event's own. */
  lemma CreateScriptFields(calendar: string, e: Fields)
    requires ValidFields(e) && CreateScriptFor(calendar, e).Some?
    ensures var sc := CreateScriptFor(calendar, e).value;
            && Unescape(sc.summary) == e.summary && Unescape(sc.description) == e.description
            && Unescape(sc.location) == e.location
            && '\n' !in sc.summary + sc.description + sc.location
  {
    EscapeRoundTrip(e.summary);
    EscapeRoundTrip(e.description);
    EscapeRoundTrip(e.location);
    EscapeNoControl(e.summary);
    EscapeNoControl(e.description);
    EscapeNoControl(e.location);
  }

  /** What a call that may run one script returned: a boolean and whether the script ran,
      or an exception. */
  datatype Call = Returned(ok: bool, ran: bool) | Raised

  /** `create_event`, with `bridge(n, script)` answering the script run as the n-th. */
  function CreateEvent(calendar: string, bridge: (nat, Script) -> Reply, n: nat, e: Fields): (r: Call)
    requires ValidFields(e)
    ensures r.Raised? <==> EnsureEndDate(e.start, e.end).Overflowed?
    ensures r.Returned? && !r.ran ==> !r.ok
    ensures r.Returned? ==> (r.ran <==> CreateScriptFor(calendar, e).Some?)
    ensures r.Returned? && r.ran ==>
              var rep := bridge(n, CreateScriptFor(calendar, e).value);
              (r.ok <==> rep.Exited? && rep.code == 0 && !Contains(Strip(rep.stdout), "Error:"))
  {
    if EnsureEndDate(e.start, e.end).Overflowed? then Raised
    else
      match CreateScriptFor(calendar, e)
      case None => Returned(false, false)
      case Some(sc) =>
        var (ok, text) := RunOutcome(bridge(n, sc));
        Returned(ok && !Contains(text, "Error:"), true)
  }

  /** `create_event` runs no script and fails when the start or the completed end is
      missing or cannot be formatted. */
  lemma CreateWithoutDates(calendar: string, bridge: (nat, Script) -> Reply, n: nat, e: Fields)
    requires ValidFields(e) && EnsureEndDate(e.start, e.end).Ensured?
    requires var t := EnsureEndDate(e.start, e.end).end;
             !Truthy(e.start) || !Truthy(t) || FormatForScript(e.start).None? || FormatForScript(t).None?
    ensures CreateEvent(calendar, bridge, n, e) == Returned(false, false)
  {
  }

  /** The script `update_event` runs, if it runs one: the create script's fields, aimed at
      the first event whose title contains the escaped summary. */
  function UpdateScriptFor(calendar: string, e: Fields): (r: Option<Script>)
    requires ValidFields(e)
    ensures r.Some? <==> CreateScriptFor(calendar, e).Some?
    ensures r.Some? ==> var c := CreateScriptFor(calendar, e).value;
                        r.value == UpdateScript(calendar, c.summary, c.description, c.location, c.start, c.end)
  {
    match PrepareDates(e)
    case Ready(a, b) => Some(UpdateScript(calendar, Escape(e.summary), Escape(e.description), Escape(e.location), a, b))
    case _ => None
  }

  /** `update_event`: as `create_event`, and the reply must also not say `not found`. */
  function UpdateEvent(calendar: string, bridge: (nat, Script) -> Reply, n: nat, e: Fields): (r: Call)
    requires ValidFields(e)
    ensures r.Raised? <==> EnsureEndDate(e.start, e.end).Overflowed?
    ensures r.Returned? && !r.ran ==> !r.ok
    ensures r.Returned? ==> (r.ran <==> UpdateScriptFor(calendar, e).Some?)
    ensures r.Returned? && r.ran ==>
              var rep := bridge(n, UpdateScriptFor(calendar, e).value);
              (r.ok <==> rep.Exited? && rep.code == 0 && !Contains(Strip(rep.stdout), "Error:")
                         && !Contains(Strip(rep.stdout), "not found"))
  {
    if EnsureEndDate(e.start, e.end).Overflowed? then Raised
    else
      match UpdateScriptFor(calendar, e)
      case None => Returned(false, false)
      case Some(sc) =>
        var (ok, text) := RunOutcome(bridge(n, sc));
        Returned(ok && !Contains(text, "Error:") && !Contains(text, "not found"), true)
  }

  /** `delete_event_by_summary`: succeeds iff the script ran, reported no `Error:` and
      reported `Deleted`. */
  function DeleteBySummary(calendar: string, bridge: (nat, Script) -> Reply, n: nat, summary: string): (ok: bool)
    ensures var rep := bridge(n, DeleteBySummaryScript(calendar, Escape(summary)));
            ok <==> rep.Exited? && rep.code == 0 && !Contains(Strip(rep.stdout), "Error:")
                    && Contains(Strip(rep.stdout), "Deleted")
  {
    var (ran, text) := RunOutcome(bridge(n, DeleteBySummaryScript(calendar, Escape(summary))));
    ran && !Contains(text, "Error:") && Contains(text, "Deleted")
  }

  /** `clear_all_events`: succeeds iff the script ran and reported no `Error:`. */
  function ClearAllEvents(calendar: string, bridge: (nat, Script) -> Reply, n: nat): (ok: bool)
    ensures var rep := bridge(n, ClearScript(calendar));
            ok <==> rep.Exited? && rep.code == 0 && !Contains(Strip(rep.stdout), "Error:")
  {
    var (ran, text) := RunOutcome(bridge(n, ClearScript(calendar)));
    ran && !Contains(text, "Error:")
  }

  /** A script whose reply says `Error:` never counts as a success, whatever else it says. */
  lemma ErrorReplyFails(calendar: string, bridge: (nat, Script) -> Reply, n: nat, e: Fields, summary: string)
    requires ValidFields(e)
    requires forall sc :: bridge(n, sc).Exited? ==> Contains(Strip(bridge(n, sc).stdout), "Error:")
    ensures CreateEvent(calendar, bridge, n, e) != Returned(true, true)
    ensures UpdateEvent(calendar, bridge, n, e) != Returned(true, true)
    ensures !DeleteBySummary(calendar, bridge, n, summary) && !ClearAllEvents(calendar, bridge, n)
  {
  }

  /** A timed-out script never counts as a success. */
  lemma TimeoutFails(calendar: string, bridge: (nat, Script) -> Reply, n: nat, e: Fields, summary: string)
    requires ValidFields(e)
    requires forall sc :: bridge(n, sc) == TimedOut
    ensures CreateEvent(calendar, bridge, n, e) != Returned(true, true)
    ensures !DeleteBySummary(calendar, bridge, n, summary) && !ClearAllEvents(calendar, bridge, n)
  {
  }

  // ---------------------------------------------------------------- the listing

  /** One event of the listing: its five `|`-separated fields. */
  datatype Row = Row(summary: string, description: string, location: string, start: string, end: string)

  /** What `get_existing_events` returns: a list of events, `"TIMEOUT"` or `None`. */
  datatype Listing = Events(rows: seq<Row>) | ListTimeout | Inaccessible

  /** One `|||`-separated segment: kept when, once stripped, it holds a `|` and splits into
      at least five parts; the first five parts, stripped, are the event. */
  function ParseLine(line: string): (r: Option<Row>)
    ensures r.Some? ==> '|' in Strip(line)
    ensures r.Some? ==> Unpadded(r.value.summary) && Unpadded(r.value.description) && Unpadded(r.value.location)
    ensures r.Some? ==> Unpadded(r.value.start) && Unpadded(r.value.end)
  {
    var l := Strip(line);
    if '|' in l then
      var parts := Split(l, "|");
      if |parts| >= 5 then
        Some(Row(Strip(parts[0]), Strip(parts[1]), Strip(parts[2]), Strip(parts[3]), Strip(parts[4])))
      else None
    else None
  }

  /** The event a segment gives, if any, as a list of zero or one rows. */
  function LineRows(line: string): (rows: seq<Row>)
    ensures |rows| <= 1
  {
    match ParseLine(line)
    case Some(r) => [r]
    case None => []
  }

  /** The loop of `get_existing_events` over the segments: their events, in order. */
  function ParseLines(lines: seq<string>): seq<Row> {
    Collect(LineRows, lines)
  }

  /** The body of the `try` in `get_existing_events`; `None` where Python raises (the count is not an
      integer), which the `except` turns into an empty list. */
  function ParseListingText(result: string): Option<seq<Row>> {
    if Strip(result) == "" then Some([])
    else if !(Contains(result, "COUNT:") && Contains(result, "|||EVENTS:")) then Some([])
    else
      var i := Find(result, "|||EVENTS:").value;
      var countPart := result[..i];
      var eventsPart := result[i + |"|||EVENTS:"|..];
      match ParseInt(Replace(countPart, "COUNT:", ""))
      case None => None
      case Some(_) =>
        if Strip(eventsPart) == "" then Some([])
        else Some(ParseLines(Split(Strip(eventsPart), "|||")))
  }

  /** How `get_existing_events` reads a failed run, or one whose text says `Error:`. */
  function Classify(result: string): (r: Listing)
    ensures r.Events? ==> r.rows == []
  {
    if Contains(result, TimeoutText) then ListTimeout
    else if Contains(result, "不能获得") && Contains(result, "calendar") then Inaccessible
    else Events([])
  }

  /** `get_existing_events` after the script has run. */
  function ListingOf(ok: bool, result: string): (r: Listing)
    ensures !ok || Contains(result, "Error:") ==> r == Classify(result)
  {
    if ok && !Contains(result, "Error:") then Events(ParseListingText(result).GetOr([]))
    else Classify(result)
  }

  function GetExistingEvents(calendar: string, bridge: (nat, Script) -> Reply, n: nat): Listing {
    var (ok, text) := RunOutcome(bridge(n, ListScript(calendar)));
    ListingOf(ok, text)
  }

  /** A timed-out listing is reported as `"TIMEOUT"`, never as an empty calendar. */
  lemma ListingTimeout(calendar: string, bridge: (nat, Script) -> Reply, n: nat)
    requires bridge(n, ListScript(calendar)) == TimedOut
    ensures GetExistingEvents(calendar, bridge, n) == ListTimeout
  {
    assert StartsAt(TimeoutText, TimeoutText, 0);
  }

  /** The listing script of `get_existing_events`: a row is its five fields joined by `|`,
      rows are joined by `|||`, after `COUNT:n|||EVENTS:`. */
  function RowText(r: Row): string {
    Join([r.summary, r.description, r.location, r.start, r.end], "|")
  }

  function Render(count: nat, rows: seq<Row>): string {
    "COUNT:" + NatToString(count) + "|||EVENTS:" + Join(Map(RowText, rows), "|||")
  }

  /** A field the listing carries unchanged: non-empty, free of `|`, without surrounding
      whitespace. */
  predicate Plain(f: string) {
    f != [] && '|' !in f && Unpadded(f)
  }

  predicate PlainRow(r: Row) {
    Plain(r.summary) && Plain(r.description) && Plain(r.location) && Plain(r.start) && Plain(r.end)
  }

  /** A string that starts with a non-space character does not strip to nothing. */
  lemma NonBlank(s: string)
    requires s != [] && !IsSpace(s[0])
    ensures Strip(s) != []
  {
  }

  /** The first and last characters of a join of non-empty parts. */
  lemma {:induction false} JoinEnds(xs: seq<string>, sep: string)
    requires |xs| >= 1 && forall i :: 0 <= i < |xs| ==> xs[i] != []
    ensures var j := Join(xs, sep); j != [] && j[0] == xs[0][0] && j[|j| - 1] == xs[|xs| - 1][|xs[|xs| - 1]| - 1]
  {
    if |xs| > 1 {
      JoinEnds(xs[1..], sep);
    }
  }

  /** No `|` is followed by another `|`. */
  predicate NoDoubleBar(x: string) {
    forall j :: 0 <= j < |x| - 1 && x[j] == '|' ==> x[j + 1] != '|'
  }

  lemma {:induction false} JoinBars(xs: seq<string>)
    requires |xs| >= 1 && forall i :: 0 <= i < |xs| ==> xs[i] != [] && '|' !in xs[i]
    ensures NoDoubleBar(Join(xs, "|"))
  {
    if |xs| > 1 {
      var x, rest := xs[0], Join(xs[1..], "|");
      JoinBars(xs[1..]);
      JoinEnds(xs[1..], "|");
      var s := x + "|" + rest;
      assert Join(xs, "|") == s;
      assert forall j :: 0 <= j < |x| ==> s[j] == x[j];
      assert forall j :: |x| < j < |s| ==> s[j] == rest[j - |x| - 1];
    }
  }

  /** No `|||` can start inside a text that does not end in `|` and has no `||`. */
  lemma CleanOfBars(x: string)
    requires x != [] && x[|x| - 1] != '|' && NoDoubleBar(x)
    ensures Clean(x, "|||")
  {
    forall j | 0 <= j < |x| ensures !StartsAt(x + "|||", "|||", j) {
      assert (x + "|||")[j] == x[j];
      if j + 1 < |x| {
        assert (x + "|||")[j + 1] == x[j + 1];
      }
    }
  }

  /** A line of `|`-free parts, without surrounding whitespace, parses to its first five
      parts, stripped, or is dropped when it has fewer than five. */
  lemma LineOfParts(fs: seq<string>)
    requires |fs| >= 2 && forall i :: 0 <= i < |fs| ==> '|' !in fs[i]
    requires Unpadded(Join(fs, "|"))
    ensures ParseLine(Join(fs, "|")) ==
              if |fs| >= 5 then Some(Row(Strip(fs[0]), Strip(fs[1]), Strip(fs[2]), Strip(fs[3]), Strip(fs[4])))
              else None
  {
    var l := Join(fs, "|");
    assert l == fs[0] + "|" + Join(fs[1..], "|");
    assert l[|fs[0]|] == '|';
    forall i | 0 <= i < |fs| ensures Clean(fs[i], "|") {
      CleanWithoutFirstChar(fs[i], "|");
    }
    SplitJoin(fs, "|");
  }

  /** A segment without `|` is dropped. */
  lemma LineWithoutBar(line: string)
    requires '|' !in line
    ensures ParseLine(line).None?
  {
  }

  /** Segments are parsed one by one, in order; at most one event comes from each. */
  lemma {:induction false} ParseLinesAppend(a: seq<string>, b: seq<string>)
    ensures ParseLines(a + b) == ParseLines(a) + ParseLines(b)
    ensures |ParseLines(a)| <= |a|
  {
    CollectAppend(LineRows, a, b);
    if a != [] {
      ParseLinesAppend(a[1..], b);
    }
  }

  lemma ParseLinesOne(line: string)
    ensures ParseLines([line]) == if ParseLine(line).Some? then [ParseLine(line).value] else []
  {
    CollectOne(LineRows, line);
  }

  function Fields5(r: Row): seq<string> {
    [r.summary, r.description, r.location, r.start, r.end]
  }

  /** One rendered row of plain fields: non-empty, without surrounding whitespace, and
      no `|||` starts inside it. */
  lemma RowTextShape(r: Row)
    requires PlainRow(r)
    ensures RowText(r) != [] && Unpadded(RowText(r)) && RowText(r)[0] == r.summary[0]
    ensures RowText(r)[|RowText(r)| - 1] == r.end[|r.end| - 1]
    ensures Clean(RowText(r), "|||")
  {
    var fs := Fields5(r);
    JoinEnds(fs, "|");
    JoinBars(fs);
    CleanOfBars(RowText(r));
  }

  /** A rendered row of plain fields parses back to the row. */
  lemma RowTextParses(r: Row)
    requires PlainRow(r)
    ensures ParseLine(RowText(r)) == Some(r)
  {
    RowTextShape(r);
    LineOfParts(Fields5(r));
  }

  lemma {:induction false} ParseRows(rows: seq<Row>)
    requires forall i :: 0 <= i < |rows| ==> PlainRow(rows[i])
    ensures ParseLines(Map(RowText, rows)) == rows
  {
    if rows != [] {
      var h := RowText(rows[0]);
      RowTextParses(rows[0]);
      ParseRows(rows[1..]);
      assert Map(RowText, rows) == [h] + Map(RowText, rows[1..]);
      ParseLinesAppend([h], Map(RowText, rows[1..]));
      ParseLinesOne(h);
    }
  }

  /** The rendered list of rows is non-empty and has no surrounding whitespace. */
  lemma BodyShape(rows: seq<Row>)
    requires rows != [] && forall i :: 0 <= i < |rows| ==> PlainRow(rows[i])
    ensures var body := Join(Map(RowText, rows), "|||"); body != [] && Unpadded(body)
  {
    var ts := Map(RowText, rows);
    MapIndex(RowText, rows);
    forall i | 0 <= i < |ts| ensures ts[i] != [] {
      RowTextShape(rows[i]);
    }
    JoinEnds(ts, "|||");
    RowTextShape(rows[0]);
    RowTextShape(rows[|rows| - 1]);
  }

  /** Splitting the rendered list of rows at `|||` gives back the rendered rows. */
  lemma BodySplit(rows: seq<Row>)
    requires rows != [] && forall i :: 0 <= i < |rows| ==> PlainRow(rows[i])
    ensures Split(Join(Map(RowText, rows), "|||"), "|||") == Map(RowText, rows)
  {
    var ts := Map(RowText, rows);
    MapIndex(RowText, rows);
    forall i | 0 <= i < |ts| ensures Clean(ts[i], "|||") {
      RowTextShape(rows[i]);
    }
    SplitJoin(ts, "|||");
  }

  /** `("COUNT:" + d).replace("COUNT:", "") == d` for a string of digits. */
  lemma CountReplace(d: string)
    requires AllDigits(d)
    ensures Replace("COUNT:" + d, "COUNT:", "") == d
  {
    var s := "COUNT:" + d;
    assert StartsAt(s, "COUNT:", 0);
    FindFirst(s, "COUNT:", 0);
    assert s[6..] == d && s[..0] == "";
    CleanWithoutFirstChar(d, "COUNT:");
    CleanNoOccurrence(d, "COUNT:");
    assert Split(d, "COUNT:") == [d];
    assert Split(s, "COUNT:") == ["", d];
    assert Join(["", d], "") == "" + "" + Join([d], "");
  }

  /** The header `COUNT:n|||EVENTS:` is found where it was written. */
  lemma HeaderAt(d: string, body: string)
    requires AllDigits(d)
    ensures var s := "COUNT:" + d + "|||EVENTS:" + body;
            && Contains(s, "COUNT:") && Find(s, "|||EVENTS:") == Some(6 + |d|)
            && s[..6 + |d|] == "COUNT:" + d && s[6 + |d| + 10..] == body
  {
    var s := "COUNT:" + d + "|||EVENTS:" + body;
    assert StartsAt(s, "COUNT:", 0);
    FindFirst(s, "COUNT:", 0);
    assert s[6 + |d|..6 + |d| + 10] == "|||EVENTS:";
    forall j | 0 <= j < 6 + |d| ensures !StartsAt(s, "|||EVENTS:", j) {
      if j < 6 {
        assert s[j] == "COUNT:"[j];
      } else {
        assert s[j] == d[j - 6];
      }
      assert s[j..j + 10][0] == s[j];
    }
    FindFirst(s, "|||EVENTS:", 6 + |d|);
  }

  /** A text with the header `COUNT:n|||EVENTS:` is parsed as its events part. */
  lemma HeaderParse(count: nat, body: string)
    ensures ParseListingText("COUNT:" + NatToString(count) + "|||EVENTS:" + body)
            == if Strip(body) == "" then Some([]) else Some(ParseLines(Split(Strip(body), "|||")))
  {
    var d := NatToString(count);
    var s := "COUNT:" + d + "|||EVENTS:" + body;
    HeaderAt(d, body);
    NonBlank(s);
    CountReplace(d);
    ParseIntRoundTrip(count);
  }

  /** Reading back a listing built as the list script builds it recovers its rows in
      order, when every field is plain and the text nowhere says `Error:`. */
  lemma ListingRoundTrip(count: nat, rows: seq<Row>)
    requires forall i :: 0 <= i < |rows| ==> PlainRow(rows[i])
    requires !Contains(Render(count, rows), "Error:")
    ensures ListingOf(true, Render(count, rows)) == Events(rows)
  {
    var body := Join(Map(RowText, rows), "|||");
    HeaderParse(count, body);
    if rows == [] {
      assert Strip(body) == "";
    } else {
      BodyShape(rows);
      BodySplit(rows);
      ParseRows(rows);
    }
  }

  /** An event whose title says `Error:` makes the whole listing read as a failed run:
      none of its events are recovered. */
  lemma ErrorInTitleLosesListing(count: nat, rows: seq<Row>)
    requires rows != [] && Contains(rows[0].summary, "Error:")
    ensures ListingOf(true, Render(count, rows)) == Classify(Render(count, rows))
    ensures ListingOf(true, Render(count, rows)) != Events(rows)
  {
    var ts := Map(RowText, rows);
    var rt := Join(Fields5(rows[0])[1..], "|");
    assert ts[0] == RowText(rows[0]) == "" + rows[0].summary + ("|" + rt);
    ContainsWithin("", rows[0].summary, "|" + rt, "Error:");
    var body := Join(ts, "|||");
    var tail := body[|ts[0]|..];
    assert body == "" + ts[0] + tail;
    ContainsWithin("", ts[0], tail, "Error:");
    assert Render(count, rows) == ("COUNT:" + NatToString(count) + "|||EVENTS:") + body + "";
    ContainsWithin("COUNT:" + NatToString(count) + "|||EVENTS:", body, "", "Error:");
  }

  /** A row whose description and location are both empty renders with a `|||` inside it
      and is lost when the listing is read back: the plain-field condition of the round
      trip cannot be dropped. */
  lemma EmptyFieldsLoseRow(count: nat, r: Row)
    requires r.description == "" && r.location == ""
    requires Plain(r.summary) && Plain(r.start) && Plain(r.end)
    ensures ParseListingText(Render(count, [r])) == Some([])
  {
    var body := r.summary + "|||" + (r.start + "|" + r.end);
    RowTextFields(r);
    assert Render(count, [r]) == "COUNT:" + NatToString(count) + "|||EVENTS:" + body;
    HeaderParse(count, body);
    EmptyFieldsSegments(r.summary, r.start, r.end);
  }

  /** The segments of such a row: the title alone, then start and end. */
  lemma EmptyFieldsSegments(summary: string, start: string, end: string)
    requires Plain(summary) && Plain(start) && Plain(end)
    ensures var body := summary + "|||" + (start + "|" + end);
            Strip(body) != "" && ParseLines(Split(Strip(body), "|||")) == []
  {
    var rest := start + "|" + end;
    var body := summary + "|||" + rest;
    assert rest == Join([start, end], "|");
    JoinEnds([start, end], "|");
    JoinBars([start, end]);
    CleanOfBars(rest);
    CleanWithoutFirstChar(summary, "|||");
    assert body == Join([summary, rest], "|||");
    SplitJoin([summary, rest], "|||");
    assert Strip(body) == body;
    LineWithoutBar(summary);
    LineOfParts([start, end]);
    ParseLinesOne(summary);
    ParseLinesOne(rest);
    ParseLinesAppend([summary], [rest]);
    assert [summary] + [rest] == [summary, rest];
  }

  lemma RowTextFields(r: Row)
    ensures RowText(r) == r.summary + "|" + r.description + "|" + r.location + "|" + r.start + "|" + r.end
  {
    var j1 := Join([r.end], "|");
    assert j1 == r.end;
    var j2 := Join([r.start, r.end], "|");
    assert [r.start, r.end][1..] == [r.end];
    assert j2 == r.start + "|" + j1;
    var j3 := Join([r.location, r.start, r.end], "|");
    assert [r.location, r.start, r.end][1..] == [r.start, r.end];
    assert j3 == r.location + "|" + j2;
    var j4 := Join([r.description, r.location, r.start, r.end], "|");
    assert [r.description, r.location, r.start, r.end][1..] == [r.location, r.start, r.end];
    assert j4 == r.description + "|" + j3;
    assert Fields5(r)[1..] == [r.description, r.location, r.start, r.end];
  }
}
