/**
 * The pure part of mac_eventkit_bridge.py: the rounding every EventKit time goes through,
 * the RRULE text built from an EventKit recurrence rule, the conversion of an EventKit
 * event into the event record both sources share, and the calendar filters of the two
 * readers.
 *
 * EventKit times arrive as NSDate values that the bridge turns into naive local
 * datetimes; that conversion is not part of this model, so an `EkEvent` holds the local
 * wall-clock values directly and only the rounding is applied here.
 */
module Eventkit {
  import opened Basics
  import opened Text
  import opened Chrono
  import opened Identity

  // ---------------------------------------------------------------- minute rounding

  /** `_normalize_minutes_global`: a units digit of 0-2 rounds down to the ten, 3-7 goes
      to the five, 8-9 goes up to the next ten, carrying into the hour (`+ timedelta`) at
      58 and 59; seconds and microseconds become 0. `None` when the carry runs past
      9999-12-31, where Python raises and the caller returns `None`. */
  function NormalizeMinutes(t: DateTime): (r: Option<DateTime>)
    requires t.Valid()
    ensures r.Some? ==> r.value.Valid() && r.value.tz == t.tz
    ensures r.Some? ==> r.value.minute % 5 == 0 && r.value.second == 0 && r.value.micro == 0
  {
    var ones := t.minute % 10;
    if ones <= 2 then Some(t.(minute := t.minute / 10 * 10, second := 0, micro := 0))
    else if ones <= 7 then Some(t.(minute := t.minute / 10 * 10 + 5, second := 0, micro := 0))
    else if (t.minute / 10 + 1) * 10 >= 60 then AddHour(t.(minute := 0, second := 0, micro := 0))
    else Some(t.(minute := (t.minute / 10 + 1) * 10, second := 0, micro := 0))
  }

  /** The result is the multiple of five minutes nearest to the input's whole minute: it
      moves the clock by at most two minutes, forwards or back. */
  lemma NormalizeNearest(t: DateTime)
    requires t.Valid() && NormalizeMinutes(t).Some?
    ensures WallMinutes(NormalizeMinutes(t).value) % 5 == 0
    ensures -2 <= WallMinutes(NormalizeMinutes(t).value) - WallMinutes(t) <= 2
  {
    var u := NormalizeMinutes(t).value;
    var h := t.(minute := 0, second := 0, micro := 0);
    HourOnGrid(h);
    HourOnGrid(u.(minute := 0));
    if t.minute % 10 >= 8 && (t.minute / 10 + 1) * 10 >= 60 {
      assert WallMinutes(u) == WallMinutes(h) + 60;
    } else {
      assert WallMinutes(u) - WallMinutes(t) == u.minute - t.minute;
    }
  }

  /** A time on the hour sits on the five-minute grid, and its minutes add on. */
  lemma HourOnGrid(t: DateTime)
    requires t.Valid() && t.minute == 0
    ensures WallMinutes(t) % 5 == 0
    ensures forall m :: 0 <= m < 60 ==> WallMinutes(t.(minute := m)) == WallMinutes(t) + m
  {
    assert WallMinutes(t) == 5 * (DayNumber(t.date) * 288 + t.hour * 12);
  }

  /** Only a carry out of 9999-12-31 23:58 or 23:59 fails. */
  lemma NormalizeFails(t: DateTime)
    requires t.Valid()
    ensures NormalizeMinutes(t).None? <==> t.date == Date(9999, 12, 31) && t.hour == 23 && t.minute >= 58
  {
  }

  /** Rounding a rounded time changes nothing. */
  lemma NormalizeIdempotent(t: DateTime)
    requires t.Valid() && NormalizeMinutes(t).Some?
    ensures NormalizeMinutes(NormalizeMinutes(t).value) == NormalizeMinutes(t)
  {
    var u := NormalizeMinutes(t).value;
    assert u.minute % 10 == 0 || u.minute % 10 == 5;
  }

  /** The documented examples: 09:29 to 09:30, 09:44 to 09:45, 09:59 to 10:00. */
  lemma NormalizeExamples(d: Date, tz: Tz)
    requires DateTime(d, 9, 29, 0, 0, tz).Valid()
    ensures NormalizeMinutes(DateTime(d, 9, 29, 41, 7, tz)) == Some(DateTime(d, 9, 30, 0, 0, tz))
    ensures NormalizeMinutes(DateTime(d, 9, 44, 0, 0, tz)) == Some(DateTime(d, 9, 45, 0, 0, tz))
    ensures NormalizeMinutes(DateTime(d, 9, 59, 0, 0, tz)) == Some(DateTime(d, 10, 0, 0, 0, tz))
  {
  }

  /** 23:58 carries into midnight of the next day. */
  lemma NormalizeCarriesDay(d: Date, tz: Tz)
    requires DateTime(d, 23, 58, 0, 0, tz).Valid() && d != Date(9999, 12, 31)
    ensures NormalizeMinutes(DateTime(d, 23, 58, 0, 0, tz)) == Some(DateTime(NextDay(d).value, 0, 0, 0, 0, tz))
  {
  }

  /** What `_convert_nsdate_to_datetime` yields for a local wall-clock value. */
  function Local(t: Option<DateTime>): (r: Option<Temporal>)
    requires t.Some? ==> t.value.Valid()
    ensures r.Some? ==> r.value.Valid() && r.value.Moment?
  {
    match t
    case None => None
    case Some(x) =>
      match NormalizeMinutes(x)
      case None => None
      case Some(u) => Some(Moment(u))
  }

  // ---------------------------------------------------------------- RRULE

  /** An EventKit recurrence rule: the frequency and day codes as EventKit numbers them,
      the interval, and the local end of the recurrence if it has one. */
  datatype Rule = Rule(frequency: int, interval: int, days: seq<int>, until: Option<DateTime>) {
    predicate Valid() {
      until.Some? ==> until.value.Valid()
    }
  }

  /** EventKit's frequency codes; an unknown code is read as weekly. */
  function FreqName(f: int): (r: string)
    ensures f !in {0, 2, 3} ==> r == "WEEKLY"
  {
    if f == 0 then "DAILY"
    else if f == 2 then "MONTHLY"
    else if f == 3 then "YEARLY"
    else "WEEKLY"
  }

  /** EventKit's day codes, Sunday first; an unknown code is read as Monday. */
  function DayName(d: int): (r: string)
    ensures |r| == 2
    ensures !(1 <= d <= 7) ==> r == "MO"
  {
    if d == 1 then "SU"
    else if d == 3 then "TU"
    else if d == 4 then "WE"
    else if d == 5 then "TH"
    else if d == 6 then "FR"
    else if d == 7 then "SA"
    else "MO"
  }

  /** `strftime('%Y%m%dT%H%M%SZ')`. */
  function Compact(t: DateTime): (s: string)
    requires t.Valid()
    ensures |s| == 16 && s[0] != 'F' && s[0] != 'I' && s[0] != 'B'
  {
    Pad(t.date.year, 4) + Pad(t.date.month, 2) + Pad(t.date.day, 2) + "T"
    + Pad(t.hour, 2) + Pad(t.minute, 2) + Pad(t.second, 2) + "Z"
  }

  /** The parts of the text for one rule, in the order the bridge appends them. */
  function RuleParts(rule: Rule): (ps: seq<string>)
    requires rule.Valid()
    ensures 1 <= |ps| <= 4
  {
    ["FREQ=" + FreqName(rule.frequency)]
    + (if rule.interval > 1 then ["INTERVAL=" + IntToString(rule.interval)] else [])
    + (if rule.frequency == 1 && rule.days != [] then ["BYDAY=" + Join(Map(DayName, rule.days), ",")] else [])
    + (if rule.until.Some? then
         match NormalizeMinutes(rule.until.value)
         case None => []
         case Some(u) => ["UNTIL=" + Compact(u)]
       else [])
  }

  /** `_format_rrule_from_eventkit`: empty without rules, otherwise the parts of the first
      rule joined by `;`. */
  function FormatRrule(rules: seq<Rule>): string
    requires forall i :: 0 <= i < |rules| ==> rules[i].Valid()
  {
    if rules == [] then "" else Join(RuleParts(rules[0]), ";")
  }

  lemma {:induction false} JoinStartsWith(xs: seq<string>, sep: string)
    requires xs != []
    ensures StartsWith(Join(xs, sep), xs[0])
  {
    if |xs| > 1 {
      assert Join(xs, sep) == xs[0] + (sep + Join(xs[1..], sep));
    }
  }

  lemma {:induction false} JoinNoChar(xs: seq<string>, sep: string, c: char)
    requires c !in sep && forall i :: 0 <= i < |xs| ==> c !in xs[i]
    ensures c !in Join(xs, sep)
  {
    if |xs| > 1 {
      JoinNoChar(xs[1..], sep, c);
    }
  }

  lemma {:induction false} DigitsNoChar(s: string, c: char)
    requires AllDigits(s) && !IsDigit(c)
    ensures c !in s
  {
  }

  lemma {:induction false} DayNamesNoSemicolon(days: seq<int>)
    ensures forall i :: 0 <= i < |Map(DayName, days)| ==> ';' !in Map(DayName, days)[i]
  {
    MapIndex(DayName, days);
  }

  /** No part holds a `;`. */
  lemma PartsWithoutSemicolon(rule: Rule)
    requires rule.Valid()
    ensures forall p :: p in RuleParts(rule) ==> ';' !in p
  {
    var freq := ["FREQ=" + FreqName(rule.frequency)];
    var interval := if rule.interval > 1 then ["INTERVAL=" + IntToString(rule.interval)] else [];
    var days := if rule.frequency == 1 && rule.days != [] then ["BYDAY=" + Join(Map(DayName, rule.days), ",")] else [];
    var until := if rule.until.Some? then
                   match NormalizeMinutes(rule.until.value)
                   case None => []
                   case Some(u) => ["UNTIL=" + Compact(u)]
                 else [];
    assert RuleParts(rule) == freq + interval + days + until;
    if rule.interval > 1 {
      DigitsNoChar(NatToString(rule.interval), ';');
    }
    if rule.frequency == 1 && rule.days != [] {
      DayNamesNoSemicolon(rule.days);
      JoinNoChar(Map(DayName, rule.days), ",", ';');
    }
    if rule.until.Some? && NormalizeMinutes(rule.until.value).Some? {
      CompactNoSemicolon(NormalizeMinutes(rule.until.value).value);
    }
  }

  lemma CompactNoSemicolon(u: DateTime)
    requires u.Valid()
    ensures ';' !in Compact(u)
  {
    DigitsNoChar(Pad(u.date.year, 4), ';');
    DigitsNoChar(Pad(u.date.month, 2), ';');
    DigitsNoChar(Pad(u.date.day, 2), ';');
    DigitsNoChar(Pad(u.hour, 2), ';');
    DigitsNoChar(Pad(u.minute, 2), ';');
    DigitsNoChar(Pad(u.second, 2), ';');
  }

  /** The text is empty exactly when there is no rule; otherwise it starts with `FREQ=`
      and splitting it at `;` gives back the parts of the first rule. */
  lemma RruleParts(rules: seq<Rule>)
    requires forall i :: 0 <= i < |rules| ==> rules[i].Valid()
    ensures FormatRrule(rules) == "" <==> rules == []
    ensures rules != [] ==> StartsWith(FormatRrule(rules), "FREQ=")
    ensures rules != [] ==> Split(FormatRrule(rules), ";") == RuleParts(rules[0])
  {
    if rules != [] {
      var ps := RuleParts(rules[0]);
      JoinStartsWith(ps, ";");
      assert StartsWith(FormatRrule(rules), "FREQ=") by {
        assert FormatRrule(rules)[..|ps[0]|] == ps[0];
        assert ps[0][..5] == "FREQ=";
      }
      PartsWithoutSemicolon(rules[0]);
      forall i | 0 <= i < |ps| ensures Clean(ps[i], ";") {
        CleanWithoutFirstChar(ps[i], ";");
      }
      SplitJoin(ps, ";");
    }
  }

  /** Which parts appear: the frequency always, with unknown codes read as weekly; the
      interval only above 1; the days only for a weekly rule that has some, unknown day
      codes read as Monday. */
  lemma RulePartsShape(rule: Rule)
    requires rule.Valid()
    ensures RuleParts(rule)[0] == "FREQ=" + FreqName(rule.frequency)
    ensures ("INTERVAL=" + IntToString(rule.interval)) in RuleParts(rule) <==> rule.interval > 1
    ensures (exists p :: p in RuleParts(rule) && StartsWith(p, "BYDAY=")) <==> rule.frequency == 1 && rule.days != []
    ensures rule.frequency == 1 && rule.days != [] ==> ("BYDAY=" + Join(Map(DayName, rule.days), ",")) in RuleParts(rule)
  {
    var ps := RuleParts(rule);
    forall p | p in ps && StartsWith(p, "BYDAY=") ensures rule.frequency == 1 && rule.days != [] {
      assert p[0] == 'B';
    }
    if rule.frequency == 1 && rule.days != [] {
      var p := "BYDAY=" + Join(Map(DayName, rule.days), ",");
      assert p in ps;
      assert p[..6] == "BYDAY=";
    }
    var iv := "INTERVAL=" + IntToString(rule.interval);
    forall p | p in ps && p == iv ensures rule.interval > 1 {
      assert p[0] == 'I';
    }
  }

  // ---------------------------------------------------------------- event conversion

  /** An EventKit event as the bridge reads it; times are local wall-clock values. */
  datatype EkEvent = EkEvent(
    eventIdentifier: Option<string>, calendarItemIdentifier: Option<string>,
    hasRecurrenceRules: bool, occurrenceDate: Option<DateTime>, recurrenceRules: seq<Rule>,
    title: Option<string>, notes: Option<string>, location: Option<string>,
    startDate: Option<DateTime>, endDate: Option<DateTime>,
    creationDate: Option<DateTime>, lastModifiedDate: Option<DateTime>)
  {
    predicate Valid() {
      && (forall i :: 0 <= i < |recurrenceRules| ==> recurrenceRules[i].Valid())
      && LocalValid(occurrenceDate) && LocalValid(startDate) && LocalValid(endDate)
      && LocalValid(creationDate) && LocalValid(lastModifiedDate)
    }
  }

  /** A local value, naive as `replace(tzinfo=None)` leaves it. */
  predicate LocalValid(t: Option<DateTime>) {
    t.Some? ==> t.value.Valid() && t.value.tz == Naive
  }

  /** The occurrence of a recurring event after rounding, when there is one. */
  function Occurrence(k: EkEvent): (r: Option<DateTime>)
    requires k.Valid()
    ensures r.Some? ==> r.value.Valid() && r.value.tz == Naive
  {
    if k.hasRecurrenceRules && k.occurrenceDate.Some? then NormalizeMinutes(k.occurrenceDate.value) else None
  }

  /** The key: `uid#isoformat(rounded occurrence)` for an occurrence of a recurring
      event, otherwise the calendar item identifier, or `MAC:` and `fallback` without one. */
  function EkKey(uid: string, k: EkEvent, fallback: string): (key: string)
    requires k.Valid()
    ensures Occurrence(k).Some? ==> key == StableKey(uid, Some(Moment(Occurrence(k).value)))
  {
    match Occurrence(k)
    case Some(o) => uid + "#" + IsoDateTime(o)
    case None =>
      if k.calendarItemIdentifier.Some? && k.calendarItemIdentifier.value != ""
      then k.calendarItemIdentifier.value else "MAC:" + fallback
  }

  /** A rounded value on the five-minute grid, or none. */
  predicate OnGrid(v: Option<Temporal>) {
    v.Some? ==> v.value.Moment? && v.value.dt.minute % 5 == 0 && v.value.dt.second == 0 && v.value.dt.micro == 0
  }

  /** A rounded local value always renders in UTC (a naive value is read as UTC). */
  lemma LocalRendersInUtc(t: Option<DateTime>)
    requires LocalValid(t)
    ensures UtcIso(Local(t)).Some?
  {
    if t.Some? && NormalizeMinutes(t.value).Some? {
      ToUtcNaive(NormalizeMinutes(t.value).value);
    }
  }

  /** The dictionary `_convert_eventkit_event_to_dict` builds for an event with
      identifier `uid`, before its hash is set. It carries the UID, the `EventKit:uid` raw
      text and no EXDATE; its description holds its marker; its times sit on the
      five-minute grid and render in UTC. */
  function Record(uid: string, k: EkEvent, fallback: string): (e: Event)
    requires k.Valid()
    ensures e.Valid()
  {
    var occ := Occurrence(k);
    var key := EkKey(uid, k, fallback);
    var rrule := if k.hasRecurrenceRules then FormatRrule(k.recurrenceRules) else "";
    Event(uid, key, NormText(k.title.GetOr("")),
          MarkDescription(NormText(k.notes.GetOr("")), key), NormText(k.location.GetOr("")),
          Local(k.startDate), Local(k.endDate), Local(k.creationDate), Local(k.lastModifiedDate),
          if occ.Some? then Some(IsoDateTime(occ.value)) else None,
          rrule, "", occ.Some?, "EventKit:" + uid, None, "")
  }

  lemma RecordShape(uid: string, k: EkEvent, fallback: string)
    requires k.Valid()
    ensures var e := Record(uid, k, fallback);
            && e.uid == uid && e.exdate == "" && e.rawData == "EventKit:" + uid
            && Contains(e.description, Marker(e.stableKey))
            && OnGrid(e.start) && OnGrid(e.end)
            && UtcIso(e.start).Some? && UtcIso(e.end).Some?
  {
    LocalRendersInUtc(k.startDate);
    LocalRendersInUtc(k.endDate);
  }

  /** The record with its hash set, `None` when a time cannot be rendered in UTC. */
  function WithHash(md5: string -> string, e: Event): (r: Option<Event>)
    requires e.Valid()
    ensures r.Some? ==> r.value == e.(hash := r.value.hash) && EventHash(md5, r.value) == Some(r.value.hash)
    ensures UtcIso(e.start).Some? && UtcIso(e.end).Some? ==> r.Some?
  {
    match EventHash(md5, e)
    case None => None
    case Some(h) =>
      HashIgnoresMetadata(md5, e, e.created, e.lastModified, e.rawData, e.sourceCalendar, e.uid, h);
      Some(e.(hash := h))
  }

  /** `_convert_eventkit_event_to_dict`: `None` without an identifier; otherwise the
      record with its hash. `fallback` stands for the random hex of `uuid.uuid4()`. */
  function ConvertEvent(md5: string -> string, k: EkEvent, fallback: string): (r: Option<Event>)
    requires k.Valid()
    ensures r.Some? ==> r.value.Valid()
  {
    if k.eventIdentifier.None? || k.eventIdentifier.value == "" then None
    else WithHash(md5, Record(k.eventIdentifier.value, k, fallback))
  }

  /** An event without an identifier is dropped and every other event converts, to its
      record with the hash `generate_event_hash` computes for that record — the bridge's
      `_generate_event_hash` joins the same fields in the same order. */
  lemma ConvertShape(md5: string -> string, k: EkEvent, fallback: string)
    requires k.Valid()
    ensures ConvertEvent(md5, k, fallback).None? <==> k.eventIdentifier.None? || k.eventIdentifier.value == ""
    ensures var r := ConvertEvent(md5, k, fallback);
            r.Some? ==> r.value == Record(k.eventIdentifier.value, k, fallback).(hash := r.value.hash)
                        && EventHash(md5, r.value) == Some(r.value.hash)
  {
    if k.eventIdentifier.Some? && k.eventIdentifier.value != "" {
      RecordShape(k.eventIdentifier.value, k, fallback);
    }
  }

  /** The key of a recurring occurrence is the key `parse_ical_event` gives the instance
      with that RECURRENCE-ID, and the record is flagged as an instance; any other event is
      keyed by its calendar item identifier, or by `MAC:` and the fallback. */
  lemma ConvertKey(uid: string, k: EkEvent, fallback: string)
    requires k.Valid()
    ensures var e := Record(uid, k, fallback);
            match Occurrence(k)
            case Some(o) =>
              && e.stableKey == StableKey(uid, Some(Moment(o)))
              && e.isRecurringInstance && e.recurrenceId == Some(IsoDateTime(o))
            case None =>
              && !e.isRecurringInstance && e.recurrenceId.None?
              && e.stableKey == (if k.calendarItemIdentifier.Some? && k.calendarItemIdentifier.value != ""
                                 then k.calendarItemIdentifier.value else "MAC:" + fallback)
  {
  }

  // ---------------------------------------------------------------- calendar selection

  /** An EventKit calendar as the readers see it. */
  datatype EkCalendar = EkCalendar(title: string, identifier: string)

  function TitleIn(names: seq<string>): EkCalendar -> bool {
    (c: EkCalendar) => exists i :: 0 <= i < |names| && Strip(c.title) == Strip(names[i])
  }

  /** The filter of `read_events_from_eventkit`: the calendars, in store order, whose
      stripped title equals some stripped name. */
  function SelectByTitle(cals: seq<EkCalendar>, names: seq<string>): seq<EkCalendar> {
    Filter(TitleIn(names), cals)
  }

  /** A calendar is selected exactly when its stripped title matches a stripped name, and
      then as often as the store lists it — once per store entry, however many names
      match; with no match nothing is selected. */
  lemma SelectByTitleSpec(cals: seq<EkCalendar>, names: seq<string>, c: EkCalendar)
    ensures c in SelectByTitle(cals, names) <==> c in cals && exists i :: 0 <= i < |names| && Strip(c.title) == Strip(names[i])
    ensures multiset(SelectByTitle(cals, names))[c] == if TitleIn(names)(c) then multiset(cals)[c] else 0
    ensures (forall d :: d in cals ==> !TitleIn(names)(d)) ==> SelectByTitle(cals, names) == []
  {
    FilterMember(TitleIn(names), cals, c);
    FilterCount(TitleIn(names), cals, c);
    if forall d :: d in cals ==> !TitleIn(names)(d) {
      FilterNone(TitleIn(names), cals);
    }
  }

  /** `dict(zip(ks, vs))` over the first `n` pairs. */
  function ZipUpTo(ks: seq<int>, vs: seq<string>, n: nat): map<int, string>
    requires n <= |ks| && n <= |vs|
  {
    if n == 0 then map[] else ZipUpTo(ks, vs, n - 1)[ks[n - 1] := vs[n - 1]]
  }

  /** `dict(zip(ks, vs))`: pairs up to the shorter list, a repeated key keeping its last
      value. */
  function DictZip(ks: seq<int>, vs: seq<string>): map<int, string> {
    ZipUpTo(ks, vs, if |ks| < |vs| then |ks| else |vs|)
  }

  lemma {:induction false} ZipUpToSpec(ks: seq<int>, vs: seq<string>, n: nat)
    requires n <= |ks| && n <= |vs|
    ensures forall k :: k in ZipUpTo(ks, vs, n) <==> exists j :: 0 <= j < n && ks[j] == k
    ensures forall j :: 0 <= j < n && (forall l :: j < l < n ==> ks[l] != ks[j]) ==> ZipUpTo(ks, vs, n)[ks[j]] == vs[j]
  {
    if n > 0 {
      ZipUpToSpec(ks, vs, n - 1);
    }
  }

  /** The key set is that of the zipped prefix, and each key maps to the value paired with
      its last occurrence there. */
  lemma DictZipSpec(ks: seq<int>, vs: seq<string>)
    ensures var n := if |ks| < |vs| then |ks| else |vs|;
            && (forall k :: k in DictZip(ks, vs) <==> exists j :: 0 <= j < n && ks[j] == k)
            && (forall j :: 0 <= j < n && (forall l :: j < l < n ==> ks[l] != ks[j]) ==> DictZip(ks, vs)[ks[j]] == vs[j])
  {
    ZipUpToSpec(ks, vs, if |ks| < |vs| then |ks| else |vs|);
  }

  function TitleAmong(names: set<string>): EkCalendar -> bool {
    (c: EkCalendar) => exists n :: n in names && Strip(c.title) == Strip(n)
  }

  /** The filter of `read_events_from_eventkit_by_indices`: the names are the values of
      `dict(zip(indices, names))`. */
  function SelectByIndices(cals: seq<EkCalendar>, indices: seq<int>, names: seq<string>): seq<EkCalendar> {
    Filter(TitleAmong(DictZip(indices, names).Values), cals)
  }

  lemma {:induction false} FilterSame<A>(p: A -> bool, q: A -> bool, xs: seq<A>)
    requires forall x :: x in xs ==> p(x) == q(x)
    ensures Filter(p, xs) == Filter(q, xs)
  {
    if xs != [] {
      FilterSame(p, q, xs[1..]);
    }
  }

  /** With distinct keys every value of the zipped prefix survives. */
  lemma {:induction false} ZipUpToValues(ks: seq<int>, vs: seq<string>, n: nat)
    requires n <= |ks| && n <= |vs|
    requires forall i, j :: 0 <= i < j < n ==> ks[i] != ks[j]
    ensures ZipUpTo(ks, vs, n).Values == set j | 0 <= j < n :: vs[j]
  {
    if n > 0 {
      ZipUpToValues(ks, vs, n - 1);
      ZipUpToSpec(ks, vs, n - 1);
      var m := ZipUpTo(ks, vs, n - 1);
      var k := ks[n - 1];
      assert k !in m;
      forall x | x in m.Values ensures x in m[k := vs[n - 1]].Values {
        var y :| y in m && m[y] == x;
        assert m[k := vs[n - 1]][y] == x;
      }
      assert m[k := vs[n - 1]][k] == vs[n - 1];
      assert m[k := vs[n - 1]].Values == m.Values + {vs[n - 1]};
      var all := set j | 0 <= j < n :: vs[j];
      var before := set j | 0 <= j < n - 1 :: vs[j];
      forall x | x in all ensures x in before + {vs[n - 1]} {
        var j :| 0 <= j < n && vs[j] == x;
        if j < n - 1 {
          assert x in before;
        }
      }
    }
  }

  /** Two filters that agree on every element select the same. */
  lemma SelectSame(cals: seq<EkCalendar>, names: seq<string>, values: set<string>)
    requires forall x :: x in values <==> exists i :: 0 <= i < |names| && names[i] == x
    ensures Filter(TitleAmong(values), cals) == SelectByTitle(cals, names)
  {
    forall c | c in cals ensures TitleAmong(values)(c) == TitleIn(names)(c) {
      if TitleIn(names)(c) {
        var i :| 0 <= i < |names| && Strip(c.title) == Strip(names[i]);
        assert names[i] in values;
      }
    }
    FilterSame(TitleAmong(values), TitleIn(names), cals);
  }

  /** With distinct indices, one per name, selecting by indices selects by the names. */
  lemma SelectByIndicesDistinct(cals: seq<EkCalendar>, indices: seq<int>, names: seq<string>)
    requires |indices| == |names|
    requires forall i, j :: 0 <= i < j < |indices| ==> indices[i] != indices[j]
    ensures SelectByIndices(cals, indices, names) == SelectByTitle(cals, names)
  {
    ZipUpToValues(indices, names, |names|);
    SelectSame(cals, names, DictZip(indices, names).Values);
  }

  /** A repeated index keeps only the last name paired with it: the calendar named by the
      earlier pair is no longer selected. */
  lemma SelectByIndicesRepeated(cals: seq<EkCalendar>, i: int, a: string, b: string)
    ensures SelectByIndices(cals, [i, i], [a, b]) == SelectByTitle(cals, [b])
  {
    var m := DictZip([i, i], [a, b]);
    assert ZipUpTo([i, i], [a, b], 0) == map[];
    assert ZipUpTo([i, i], [a, b], 1) == map[i := a];
    assert m == map[i := a][i := b];
    assert m == map[i := b];
    assert m[i] == b;
    forall x | x in m.Values ensures x == b {
      var y :| y in m && m[y] == x;
    }
    assert m.Values == {b};
    forall x ensures x in m.Values <==> exists j :: 0 <= j < 1 && [b][j] == x {
      if x in m.Values {
        assert [b][0] == x;
      }
    }
    SelectSame(cals, [b], m.Values);
  }
}
