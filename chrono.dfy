/**
 * Python's `date` and `datetime` as far as the sync engine uses them: validity, the
 * one-day and one-hour steps (`+ timedelta`), shifting a fixed-offset value to UTC
 * (`astimezone(timezone.utc)`), `isoformat()`, `fromisoformat()` on the forms
 * `isoformat()` produces, and `strftime("%Y-%m-%d %H:%M:%S")`.
 * Years run from 1 to 9999 as in Python; stepping past either end is `None`
 * (Python raises `OverflowError`).
 */
module Chrono {
  import opened Basics
  import opened Text

  predicate IsLeap(y: int) {
    y % 4 == 0 && (y % 100 != 0 || y % 400 == 0)
  }

  function DaysInMonth(y: int, m: int): int {
    if m == 2 then (if IsLeap(y) then 29 else 28)
    else if m == 4 || m == 6 || m == 9 || m == 11 then 30
    else 31
  }

  function YearLength(y: int): int {
    if IsLeap(y) then 366 else 365
  }

  datatype Date = Date(year: int, month: int, day: int) {
    predicate Valid() {
      1 <= year <= 9999 && 1 <= month <= 12 && 1 <= day <= DaysInMonth(year, month)
    }
  }

  /** A `tzinfo`: none, or a fixed offset east of UTC in whole minutes. */
  datatype Tz = Naive | Offset(minutes: int)

  datatype DateTime = DateTime(date: Date, hour: int, minute: int, second: int, micro: int, tz: Tz) {
    predicate Valid() {
      && date.Valid() && 0 <= hour < 24 && 0 <= minute < 60 && 0 <= second < 60
      && 0 <= micro < 1000000
      && (tz.Offset? ==> -1440 < tz.minutes < 1440)
    }
  }

  /** What an event's start or end holds: a `date` (all-day) or a `datetime`. */
  datatype Temporal = Day(date: Date) | Moment(dt: DateTime) {
    predicate Valid() {
      match this
      case Day(d) => d.Valid()
      case Moment(t) => t.Valid()
    }
  }

  /** `datetime.combine(d, time())`. */
  function Midnight(d: Date): (r: DateTime)
    requires d.Valid()
    ensures r.Valid() && r.date == d && r.tz == Naive
  {
    DateTime(d, 0, 0, 0, 0, Naive)
  }

  // ---------------------------------------------------------------- day arithmetic

  /** Days in the years before `y`. */
  function DaysBeforeYear(y: int): nat
    requires y >= 1
  {
    if y == 1 then 0 else DaysBeforeYear(y - 1) + YearLength(y - 1)
  }

  function DaysBeforeMonth(y: int, m: int): int
    requires 1 <= m <= 12
  {
    [0, 31, 59, 90, 120, 151, 181, 212, 243, 273, 304, 334][m - 1] + (if m > 2 && IsLeap(y) then 1 else 0)
  }

  /** Days since 0001-01-01 (Python's `toordinal() - 1`). */
  function DayNumber(d: Date): int
    requires d.Valid()
  {
    DaysBeforeYear(d.year) + DaysBeforeMonth(d.year, d.month) + d.day - 1
  }

  /** `d + timedelta(days=1)`; `None` past 9999-12-31. */
  function NextDay(d: Date): (r: Option<Date>)
    requires d.Valid()
    ensures r.Some? ==> r.value.Valid() && DayNumber(r.value) == DayNumber(d) + 1
    ensures r.None? <==> d == Date(9999, 12, 31)
  {
    if d.day < DaysInMonth(d.year, d.month) then Some(Date(d.year, d.month, d.day + 1))
    else if d.month < 12 then NewMonth(d); Some(Date(d.year, d.month + 1, 1))
    else if d.year < 9999 then NewYear(d); Some(Date(d.year + 1, 1, 1))
    else None
  }

  /** The first of the next month follows the last day of a month before December. */
  lemma NewMonth(d: Date)
    requires d.Valid() && d.day == DaysInMonth(d.year, d.month) && d.month < 12
    ensures DayNumber(Date(d.year, d.month + 1, 1)) == DayNumber(d) + 1
  {
    DaysBeforeMonthStep(d.year, d.month);
  }

  /** 1 January follows 31 December. */
  lemma NewYear(d: Date)
    requires d.Valid() && d.month == 12 && d.day == 31 && d.year < 9999
    ensures DayNumber(Date(d.year + 1, 1, 1)) == DayNumber(d) + 1
  {
    assert DaysBeforeYear(d.year + 1) == DaysBeforeYear(d.year) + YearLength(d.year);
  }

  /** `d - timedelta(days=1)`; `None` before 0001-01-01. */
  function PrevDay(d: Date): (r: Option<Date>)
    requires d.Valid()
    ensures r.Some? ==> r.value.Valid() && DayNumber(r.value) == DayNumber(d) - 1
    ensures r.None? <==> d == Date(1, 1, 1)
  {
    if d.day > 1 then Some(Date(d.year, d.month, d.day - 1))
    else if d.month > 1 then Some(Date(d.year, d.month - 1, DaysInMonth(d.year, d.month - 1)))
    else if d.year > 1 then Some(Date(d.year - 1, 12, 31))
    else None
  }

  /** Minutes since 0001-01-01 00:00 on the value's own wall clock. */
  function WallMinutes(t: DateTime): int
    requires t.Valid()
  {
    DayNumber(t.date) * 1440 + t.hour * 60 + t.minute
  }

  function OffsetMinutes(tz: Tz): int {
    match tz
    case Naive => 0
    case Offset(m) => m
  }

  /** `t + timedelta(hours=1)`; the offset is kept. `None` past year 9999. */
  function AddHour(t: DateTime): (r: Option<DateTime>)
    requires t.Valid()
    ensures r.Some? ==> r.value.Valid() && WallMinutes(r.value) == WallMinutes(t) + 60
    ensures r.Some? ==> r.value.minute == t.minute && r.value.second == t.second
    ensures r.Some? ==> r.value.micro == t.micro && r.value.tz == t.tz
    ensures r.None? <==> t.date == Date(9999, 12, 31) && t.hour == 23
  {
    if t.hour < 23 then Some(t.(hour := t.hour + 1))
    else
      match NextDay(t.date)
      case None => None
      case Some(d) => Some(t.(date := d, hour := 0))
  }

  /** `t.astimezone(timezone.utc)`, a naive value being taken as UTC first
      (`replace(tzinfo=timezone.utc)`). `None` when the instant falls outside years 1..9999. */
  function ToUtc(t: DateTime): (r: Option<DateTime>)
    requires t.Valid()
    ensures r.Some? ==> r.value.Valid() && r.value.tz == Offset(0)
    ensures r.Some? ==> WallMinutes(r.value) == WallMinutes(t) - OffsetMinutes(t.tz)
    ensures r.Some? ==> r.value.second == t.second && r.value.micro == t.micro
  {
    var m := t.hour * 60 + t.minute - OffsetMinutes(t.tz);
    if m < 0 then
      match PrevDay(t.date)
      case None => None
      case Some(d) => Some(DateTime(d, (m + 1440) / 60, (m + 1440) % 60, t.second, t.micro, Offset(0)))
    else if m >= 1440 then
      match NextDay(t.date)
      case None => None
      case Some(d) => Some(DateTime(d, (m - 1440) / 60, (m - 1440) % 60, t.second, t.micro, Offset(0)))
    else Some(DateTime(t.date, m / 60, m % 60, t.second, t.micro, Offset(0)))
  }

  /** Shifting to UTC twice is shifting once. */
  lemma ToUtcIdempotent(t: DateTime)
    requires t.Valid() && ToUtc(t).Some?
    ensures ToUtc(ToUtc(t).value) == ToUtc(t)
  {
  }

  /** A naive value is read as UTC: it renders as the same value marked `+00:00`. */
  lemma ToUtcNaive(t: DateTime)
    requires t.Valid() && t.tz == Naive
    ensures ToUtc(t) == Some(t.(tz := Offset(0)))
  {
  }

  lemma DaysBeforeMonthStep(y: int, m: int)
    requires 1 <= m < 12
    ensures DaysBeforeMonth(y, m + 1) == DaysBeforeMonth(y, m) + DaysInMonth(y, m)
  {
  }

  lemma {:induction false} DaysBeforeMonthGrows(y: int, m: int, n: int)
    requires 1 <= m < n <= 12
    ensures DaysBeforeMonth(y, m) + DaysInMonth(y, m) <= DaysBeforeMonth(y, n)
    decreases n - m
  {
    DaysBeforeMonthStep(y, m);
    if m + 1 < n {
      DaysBeforeMonthGrows(y, m + 1, n);
    }
  }

  lemma DayOfYearBound(d: Date)
    requires d.Valid()
    ensures DaysBeforeMonth(d.year, d.month) + d.day <= YearLength(d.year)
  {
    if d.month < 12 {
      DaysBeforeMonthGrows(d.year, d.month, 12);
    }
  }

  lemma {:induction false} DaysBeforeYearGrows(y: int, z: int)
    requires 1 <= y < z
    ensures DaysBeforeYear(y) + YearLength(y) <= DaysBeforeYear(z)
    decreases z - y
  {
    if y + 1 < z {
      DaysBeforeYearGrows(y + 1, z);
    }
  }

  /** Distinct valid dates have distinct day numbers. */
  lemma DayNumberInjective(d: Date, e: Date)
    requires d.Valid() && e.Valid() && DayNumber(d) == DayNumber(e)
    ensures d == e
  {
    if d.year < e.year {
      DayOfYearBound(d);
      DaysBeforeYearGrows(d.year, e.year);
    } else if e.year < d.year {
      DayOfYearBound(e);
      DaysBeforeYearGrows(e.year, d.year);
    } else if d.month < e.month {
      DaysBeforeMonthGrows(d.year, d.month, e.month);
    } else if e.month < d.month {
      DaysBeforeMonthGrows(d.year, e.month, d.month);
    }
  }

  lemma ClockSplit(p: int, a: int, q: int, b: int, unit: int)
    requires 0 <= a < unit && 0 <= b < unit && (unit == 1440 || unit == 60)
    requires p * unit + a == q * unit + b
    ensures p == q && a == b
  {
  }

  /** The wall-clock minute, the second, the microsecond and the zone determine a value. */
  lemma WallMinutesInjective(t: DateTime, u: DateTime)
    requires t.Valid() && u.Valid() && WallMinutes(t) == WallMinutes(u)
    requires t.second == u.second && t.micro == u.micro && t.tz == u.tz
    ensures t == u
  {
    ClockSplit(DayNumber(t.date), t.hour * 60 + t.minute, DayNumber(u.date), u.hour * 60 + u.minute, 1440);
    DayNumberInjective(t.date, u.date);
    ClockSplit(t.hour, t.minute, u.hour, u.minute, 60);
  }

  // ---------------------------------------------------------------- rendering

  /** `date.isoformat()`: `YYYY-MM-DD`. */
  function IsoDate(d: Date): (s: string)
    requires d.Valid()
    ensures |s| == 10
  {
    Pad(d.year, 4) + "-" + Pad(d.month, 2) + "-" + Pad(d.day, 2)
  }

  /** `HH:MM:SS`, plus `.ffffff` when the microsecond is non-zero. */
  function IsoTime(t: DateTime): (s: string)
    requires t.Valid()
    ensures |s| == (if t.micro == 0 then 8 else 15)
  {
    Pad(t.hour, 2) + ":" + Pad(t.minute, 2) + ":" + Pad(t.second, 2)
    + (if t.micro == 0 then "" else "." + Pad(t.micro, 6))
  }

  /** `±HH:MM`; empty for a naive value. */
  function IsoOffset(tz: Tz): (s: string)
    requires tz.Offset? ==> -1440 < tz.minutes < 1440
    ensures |s| == (if tz.Naive? then 0 else 6)
  {
    match tz
    case Naive => ""
    case Offset(m) =>
      var a := if m < 0 then -m else m;
      (if m < 0 then "-" else "+") + Pad(a / 60, 2) + ":" + Pad(a % 60, 2)
  }

  /** `datetime.isoformat()`. */
  function IsoDateTime(t: DateTime): string
    requires t.Valid()
  {
    IsoDate(t.date) + "T" + IsoTime(t) + IsoOffset(t.tz)
  }

  /** `isoformat()` of a date or a datetime. */
  function IsoFormat(v: Temporal): string
    requires v.Valid()
  {
    match v
    case Day(d) => IsoDate(d)
    case Moment(t) => IsoDateTime(t)
  }

  /** `strftime("%Y-%m-%d %H:%M:%S")`: the wall clock, without microseconds or offset. */
  function Strftime(t: DateTime): (s: string)
    requires t.Valid()
    ensures |s| == 19
  {
    IsoDate(t.date) + " " + Pad(t.hour, 2) + ":" + Pad(t.minute, 2) + ":" + Pad(t.second, 2)
  }

  // ---------------------------------------------------------------- parsing

  /** Fixed-width field of ASCII digits. */
  function Field(s: string): Option<nat> {
    if AllDigits(s) then Some(DigitsValue(s)) else None
  }

  /** `date.fromisoformat` on `YYYY-MM-DD`. */
  function ParseDate(s: string): (r: Option<Date>)
    ensures r.Some? ==> r.value.Valid()
  {
    if |s| != 10 || s[4] != '-' || s[7] != '-' then None
    else
      match (Field(s[..4]), Field(s[5..7]), Field(s[8..]))
      case (Some(y), Some(m), Some(d)) =>
        if Date(y, m, d).Valid() then Some(Date(y, m, d)) else None
      case _ => None
  }

  lemma Pow10Values()
    ensures Pow10(2) == 100 && Pow10(3) == 1000 && Pow10(6) == 1000000
  {
    assert Pow10(1) == 10;
    assert Pow10(2) == 100;
    assert Pow10(3) == 1000;
    assert Pow10(4) == 10000;
    assert Pow10(5) == 100000;
  }

  lemma {:induction false} DigitsBound(s: string)
    requires AllDigits(s)
    ensures DigitsValue(s) < Pow10(|s|)
  {
    if s != [] {
      DigitsBound(s[..|s| - 1]);
    }
  }

  /** The fractional part `fff` or `ffffff` from position `p` to the end of `t`, as
      microseconds, after the fields `vals`. */
  function Fraction(t: string, p: nat, vals: seq<nat>): (r: Option<(seq<nat>, nat)>)
    requires p <= |t|
    ensures r.Some? ==> r.value.0 == vals && r.value.1 < 1000000
  {
    var f := t[p..];
    if |f| != 3 && |f| != 6 then None
    else
      match Field(f)
      case None => None
      case Some(v) =>
        DigitsBound(f);
        Pow10Values();
        Some((vals, if |f| == 3 then v * 1000 else v))
  }

  /** The segment `t` read as `HH[:MM[:SS]]` and an optional `.fff` or `.ffffff`, from
      field `i` on, the fields read so far being `vals`; `more` says whether an offset
      follows the segment. As in CPython's reader up to Python 3.10, one character of any
      kind may end the last field when an offset follows, a `.` may follow any field, and
      a `:` after the third field is read like a `.`. */
  function Hms(t: string, more: bool, i: nat, vals: seq<nat>): (r: Option<(seq<nat>, nat)>)
    requires |vals| == i <= 3 && 3 * i <= |t|
    ensures r.Some? ==> vals <= r.value.0 && 1 <= |r.value.0| <= 3 && r.value.1 < 1000000
    ensures r.Some? ==> forall k :: i <= k < |r.value.0| ==> r.value.0[k] < 100
    decreases 3 - i
  {
    if i == 3 then Fraction(t, 9, vals)
    else
      var p := 3 * i;
      if p + 2 > |t| then None
      else
        match Field(t[p..p + 2])
        case None => None
        case Some(v) =>
          DigitsBound(t[p..p + 2]);
          Pow10Values();
          var vs := vals + [v];
          if p + 2 == |t| then Some((vs, 0))
          else if p + 3 == |t| then (if more then Some((vs, 0)) else None)
          else if t[p + 2] == ':' then Hms(t, more, i + 1, vs)
          else if t[p + 2] == '.' then Fraction(t, p + 3, vs)
          else None
  }

  /** The fields `Hms` read, as (hour, minute, second, microsecond), the missing ones 0. */
  function Clock(r: (seq<nat>, nat)): (nat, nat, nat, nat)
    requires 1 <= |r.0|
  {
    (r.0[0], if |r.0| > 1 then r.0[1] else 0, if |r.0| > 2 then r.0[2] else 0, r.1)
  }

  /** The time before the offset (or the end) as (hour, minute, second, microsecond), in
      the ranges `datetime` accepts. */
  function ParseTime(t: string, more: bool): (r: Option<(nat, nat, nat, nat)>)
    ensures r.Some? ==> r.value.0 < 24 && r.value.1 < 60 && r.value.2 < 60 && r.value.3 < 1000000
  {
    match Hms(t, more, 0, [])
    case None => None
    case Some(f) =>
      var (h, m, sec, us) := Clock(f);
      if h < 24 && m < 60 && sec < 60 then Some((h, m, sec, us)) else None
  }

  /** `+HH:MM`, `+HH:MM:SS` or `+HH:MM:SS.ffffff` (or with `-`) as signed minutes. The
      fields are not checked one by one; the whole offset must stay under 24 hours, and
      only offsets of whole minutes are kept. */
  function ParseOffset(s: string): (r: Option<int>)
    ensures r.Some? ==> -1440 < r.value < 1440
  {
    if (|s| != 6 && |s| != 9 && |s| != 16) || (s[0] != '+' && s[0] != '-') then None
    else
      match Hms(s[1..], false, 0, [])
      case None => None
      case Some(f) =>
        var (h, m, sec, us) := Clock(f);
        var total := h * 60 + m;
        if sec != 0 || us != 0 || total >= 1440 then None
        else Some(if s[0] == '-' then -total else total)
  }

  /** The index of the first `+` or `-` in `s`, or `|s|` when there is none. */
  function SignAt(s: string): (k: nat)
    ensures k <= |s| && (k < |s| ==> s[k] == '+' || s[k] == '-')
    ensures forall j :: 0 <= j < k ==> s[j] != '+' && s[j] != '-'
  {
    if s == [] || s[0] == '+' || s[0] == '-' then 0 else 1 + SignAt(s[1..])
  }

  /** `datetime.fromisoformat` (Python 3.7 to 3.10): a date, then, if anything follows,
      one separator character of any kind, a time and an optional offset. */
  function ParseIso(s: string): (r: Option<DateTime>)
    ensures r.Some? ==> r.value.Valid()
  {
    if |s| < 10 then None
    else
      match ParseDate(s[..10])
      case None => None
      case Some(d) =>
        if |s| == 10 then Some(Midnight(d))
        else
          match ParseClock(s[11..])
          case None => None
          case Some((h, m, sec, us, z)) => Some(DateTime(d, h, m, sec, us, z))
  }

  /** The part after the separator: the time up to the first sign, then the offset from
      that sign on, or a naive value when there is no sign. */
  function ParseClock(rest: string): (r: Option<(int, int, int, int, Tz)>)
    ensures r.Some? ==> DateTime(Date(1, 1, 1), r.value.0, r.value.1, r.value.2, r.value.3, r.value.4).Valid()
  {
    var k := SignAt(rest);
    var tz := if k == |rest| then Some(Naive)
              else match ParseOffset(rest[k..]) case None => None case Some(o) => Some(Offset(o));
    match (ParseTime(rest[..k], k < |rest|), tz)
    case (Some((h, m, sec, us)), Some(z)) => Some((h, m, sec, us, z))
    case _ => None
  }

  lemma FieldPad(n: nat, w: nat)
    requires n < Pow10(w)
    ensures Field(Pad(n, w)) == Some(n)
  {
    PadValue(n, w);
  }

  lemma ParseIsoDate(d: Date)
    requires d.Valid()
    ensures ParseDate(IsoDate(d)) == Some(d)
  {
    var s := IsoDate(d);
    assert s[..4] == Pad(d.year, 4) && s[5..7] == Pad(d.month, 2) && s[8..] == Pad(d.day, 2);
    FieldPad(d.year, 4);
    FieldPad(d.month, 2);
    FieldPad(d.day, 2);
  }

  /** One step of `Hms`: a field followed by `:` and more text. */
  lemma HmsColon(t: string, more: bool, i: nat, vals: seq<nat>, v: nat)
    requires |vals| == i < 3 && 3 * i + 3 < |t|
    requires Field(t[3 * i..3 * i + 2]) == Some(v) && t[3 * i + 2] == ':'
    ensures Hms(t, more, i, vals) == Hms(t, more, i + 1, vals + [v])
  {
  }

  /** The last step of `Hms`: a field that ends the segment. */
  lemma HmsEnd(t: string, more: bool, i: nat, vals: seq<nat>, v: nat)
    requires |vals| == i < 3 && 3 * i + 2 == |t|
    requires Field(t[3 * i..3 * i + 2]) == Some(v)
    ensures Hms(t, more, i, vals) == Some((vals + [v], 0))
  {
  }

  /** A field followed by `.` and the fraction. */
  lemma HmsDot(t: string, more: bool, i: nat, vals: seq<nat>, v: nat)
    requires |vals| == i < 3 && 3 * i + 3 < |t|
    requires Field(t[3 * i..3 * i + 2]) == Some(v) && t[3 * i + 2] == '.'
    ensures Hms(t, more, i, vals) == Fraction(t, 3 * i + 3, vals + [v])
  {
  }

  /** `HH:MM:` at the start of a segment gives the first two fields. */
  lemma HmsTwoFields(s: string, more: bool, h: nat, m: nat)
    requires |s| > 6 && Field(s[0..2]) == Some(h) && s[2] == ':' && Field(s[3..5]) == Some(m) && s[5] == ':'
    ensures Hms(s, more, 0, []) == Hms(s, more, 2, [h, m])
  {
    HmsColon(s, more, 0, [], h);
    assert [] + [h] == [h];
    HmsColon(s, more, 1, [h], m);
    assert [h] + [m] == [h, m];
  }

  /** `HH:MM:SS` with an optional six-digit fraction reads as its three fields. */
  lemma HmsLayout(hh: string, mm: string, ss: string, ff: string, more: bool, h: nat, m: nat, sec: nat, us: nat)
    requires |hh| == |mm| == |ss| == 2
    requires Field(hh) == Some(h) && Field(mm) == Some(m) && Field(ss) == Some(sec)
    requires ff == [] ==> us == 0
    requires ff != [] ==> |ff| == 6 && Field(ff) == Some(us)
    ensures Hms(hh + ":" + mm + ":" + ss + (if ff == [] then "" else "." + ff), more, 0, []) == Some(([h, m, sec], us))
  {
    var tail := if ff == [] then "" else "." + ff;
    var s := hh + ":" + mm + ":" + ss + tail;
    ClockLayout(hh, mm, ss, tail);
    assert s[0..2] == hh;
    HmsTwoFields(s, more, h, m);
    assert [h, m] + [sec] == [h, m, sec];
    if ff != [] {
      assert s[9..] == ff;
      HmsDot(s, more, 2, [h, m], sec);
      assert Fraction(s, 9, [h, m, sec]) == Some(([h, m, sec], us));
    } else {
      HmsEnd(s, more, 2, [h, m], sec);
    }
  }

  /** `isoformat()`'s `HH:MM:SS[.ffffff]` reads back as its fields, whatever follows. */
  lemma ParseIsoTime(t: DateTime, more: bool)
    requires t.Valid()
    ensures ParseTime(IsoTime(t), more) == Some((t.hour, t.minute, t.second, t.micro))
  {
    FieldPad(t.hour, 2);
    FieldPad(t.minute, 2);
    FieldPad(t.second, 2);
    var ff := if t.micro == 0 then "" else Pad(t.micro, 6);
    if t.micro != 0 {
      FieldPad(t.micro, 6);
    }
    HmsLayout(Pad(t.hour, 2), Pad(t.minute, 2), Pad(t.second, 2), ff, more, t.hour, t.minute, t.second, t.micro);
    assert IsoTime(t) == Pad(t.hour, 2) + ":" + Pad(t.minute, 2) + ":" + Pad(t.second, 2) + (if ff == [] then "" else "." + ff);
  }

  /** Where the fields of `HH:MM:SS` and what follows sit. */
  lemma ClockLayout(hh: string, mm: string, ss: string, tail: string)
    requires |hh| == |mm| == |ss| == 2
    ensures var s := hh + ":" + mm + ":" + ss + tail;
            |s| == 8 + |tail| && s[..2] == hh && s[2] == ':' && s[3..5] == mm && s[5] == ':'
            && s[6..8] == ss && s[8..] == tail
  {
  }

  lemma ParseIsoOffset(m: int)
    requires -1440 < m < 1440
    ensures ParseOffset(IsoOffset(Offset(m))) == Some(m)
  {
    var a := if m < 0 then -m else m;
    var h, mm := a / 60, a % 60;
    assert h * 60 + mm == a;
    FieldPad(h, 2);
    FieldPad(mm, 2);
    assert IsoOffset(Offset(m)) == (if m < 0 then "-" else "+") + Pad(h, 2) + ":" + Pad(mm, 2);
    OffsetFields(if m < 0 then "-" else "+", Pad(a / 60, 2), Pad(a % 60, 2), a / 60, a % 60);
  }

  /** `±HH:MM` reads as the signed minutes of its fields. */
  lemma OffsetFields(sign: string, hh: string, mm: string, h: nat, m: nat)
    requires sign == "+" || sign == "-"
    requires |hh| == |mm| == 2 && Field(hh) == Some(h) && Field(mm) == Some(m) && h * 60 + m < 1440
    ensures ParseOffset(sign + hh + ":" + mm) == Some(if sign == "-" then -(h * 60 + m) else h * 60 + m)
  {
    var s := sign + hh + ":" + mm;
    OffsetLayout(sign, hh, mm);
    var t := s[1..];
    assert t[0..2] == hh && t[2] == ':' && t[3..5] == mm && |t| == 5;
    HmsColon(t, false, 0, [], h);
    assert [] + [h] == [h];
    HmsEnd(t, false, 1, [h], m);
  }

  /** Where the sign and the fields of `±HH:MM` sit. */
  lemma OffsetLayout(sign: string, hh: string, mm: string)
    requires |sign| == 1 && |hh| == |mm| == 2
    ensures var s := sign + hh + ":" + mm;
            |s| == 6 && s[0] == sign[0] && s[1..3] == hh && s[3] == ':' && s[4..] == mm
  {
  }

  /** `isoformat()`'s time holds no sign, so the first sign is the offset's. */
  lemma {:induction false} SignAtTime(t: DateTime, os: string)
    requires t.Valid() && (os == [] || os[0] == '+' || os[0] == '-')
    ensures SignAt(IsoTime(t) + os) == |IsoTime(t)|
  {
    var ts := IsoTime(t);
    var tail := if t.micro == 0 then "" else "." + Pad(t.micro, 6);
    ClockLayout(Pad(t.hour, 2), Pad(t.minute, 2), Pad(t.second, 2), tail);
    forall j | 0 <= j < |ts| ensures ts[j] != '+' && ts[j] != '-' {
      if j >= 9 {
        assert ts[j] == Pad(t.micro, 6)[j - 9];
      }
    }
    SignAtSkip(ts, os);
  }

  lemma {:induction false} SignAtSkip(a: string, b: string)
    requires forall j :: 0 <= j < |a| ==> a[j] != '+' && a[j] != '-'
    requires b == [] || b[0] == '+' || b[0] == '-'
    ensures SignAt(a + b) == |a|
  {
    if a == [] {
      assert a + b == b;
    } else {
      assert (a + b)[1..] == a[1..] + b;
      SignAtSkip(a[1..], b);
    }
  }

  /** `fromisoformat(isoformat(t)) == t`: the rendering loses nothing. */
  lemma {:induction false} ParseIsoRoundTrip(t: DateTime)
    requires t.Valid()
    ensures ParseIso(IsoDateTime(t)) == Some(t)
  {
    var s := IsoDateTime(t);
    var ds, rest := IsoDate(t.date), IsoTime(t) + IsoOffset(t.tz);
    assert s == ds + "T" + rest;
    assert s[..10] == ds && s[11..] == rest;
    ParseIsoDate(t.date);
    ParseClockRoundTrip(t);
  }

  lemma ParseClockRoundTrip(t: DateTime)
    requires t.Valid()
    ensures ParseClock(IsoTime(t) + IsoOffset(t.tz)) == Some((t.hour, t.minute, t.second, t.micro, t.tz))
  {
    var ts, os := IsoTime(t), IsoOffset(t.tz);
    var rest := ts + os;
    assert rest[..|ts|] == ts;
    SignAtTime(t, os);
    ParseIsoTime(t, t.tz.Offset?);
    if t.tz.Offset? {
      assert rest[|ts|..] == os;
      ParseIsoOffset(t.tz.minutes);
    }
  }

  /** `fromisoformat` also takes a time without seconds: `YYYY-MM-DDTHH:MM` is that minute,
      naive. */
  lemma ParseIsoMinutes(d: Date, h: nat, m: nat)
    requires d.Valid() && h < 24 && m < 60
    ensures ParseIso(IsoDate(d) + "T" + Pad(h, 2) + ":" + Pad(m, 2)) == Some(DateTime(d, h, m, 0, 0, Naive))
  {
    var rest := Pad(h, 2) + ":" + Pad(m, 2);
    var s := IsoDate(d) + "T" + rest;
    assert s == IsoDate(d) + "T" + Pad(h, 2) + ":" + Pad(m, 2);
    assert s[..10] == IsoDate(d) && s[11..] == rest;
    ParseIsoDate(d);
    FieldPad(h, 2);
    FieldPad(m, 2);
    ClockMinutes(Pad(h, 2), Pad(m, 2), h, m);
  }

  /** `HH:MM` alone is a naive time with zero seconds. */
  lemma ClockMinutes(hh: string, mm: string, h: nat, m: nat)
    requires |hh| == |mm| == 2 && Field(hh) == Some(h) && Field(mm) == Some(m) && h < 24 && m < 60
    ensures ParseClock(hh + ":" + mm) == Some((h as int, m as int, 0, 0, Naive))
  {
    var rest := hh + ":" + mm;
    assert rest[0..2] == hh && rest[2] == ':' && rest[3..5] == mm && |rest| == 5;
    forall j | 0 <= j < |rest| ensures rest[j] != '+' && rest[j] != '-' {
      if j < 2 {
        assert rest[j] == hh[j];
      } else if j > 2 {
        assert rest[j] == mm[j - 3];
      }
    }
    SignAtSkip(rest, []);
    assert rest + [] == rest && rest[..5] == rest;
    HmsColon(rest, false, 0, [], h);
    assert [] + [h] == [h];
    HmsEnd(rest, false, 1, [h], m);
  }

  /** A bare date parses as its midnight. */
  lemma ParseIsoDay(d: Date)
    requires d.Valid()
    ensures ParseIso(IsoDate(d)) == Some(Midnight(d))
  {
    ParseIsoDate(d);
    assert IsoDate(d)[..10] == IsoDate(d);
  }

  /** `isoformat()` is injective on datetimes. */
  lemma IsoDateTimeInjective(t: DateTime, u: DateTime)
    requires t.Valid() && u.Valid() && IsoDateTime(t) == IsoDateTime(u)
    ensures t == u
  {
    ParseIsoRoundTrip(t);
    ParseIsoRoundTrip(u);
  }

  /** `isoformat()` is injective on dates and datetimes together (a date is 10 characters
      long, a datetime at least 19). */
  lemma IsoFormatInjective(v: Temporal, w: Temporal)
    requires v.Valid() && w.Valid() && IsoFormat(v) == IsoFormat(w)
    ensures v == w
  {
    match (v, w)
    case (Day(a), Day(b)) =>
      ParseIsoDate(a);
      ParseIsoDate(b);
    case (Moment(a), Moment(b)) =>
      IsoDateTimeInjective(a, b);
    case _ =>
  }
}
