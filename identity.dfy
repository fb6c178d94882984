/**
 * Event identity: UTC rendering of start/end values, canonical RRULE and EXDATE text,
 * the stable key `uid` or `uid#recurrence-id`, the `[SYNC_UID:key]` description
 * marker, the normalised event record and the `'||'`-joined hash input.
 * The digest itself (`hashlib.md5(...).hexdigest()`) is a parameter `md5`.
 */
module Identity {
  import opened Basics
  import opened Text
  import opened Chrono

  // ---------------------------------------------------------------- UTC rendering

  predicate ValidOpt(v: Option<Temporal>) {
    v.Some? ==> v.value.Valid()
  }

  /** `_to_utc_iso`: `""` for no value, `YYYY-MM-DD|ALLDAY` for a date, and the UTC
      `isoformat()` (ending `+00:00`) for a datetime. `None` where Python's
      `astimezone` raises `OverflowError`. */
  function UtcIso(v: Option<Temporal>): (r: Option<string>)
    requires ValidOpt(v)
    ensures v.None? ==> r == Some("")
    ensures v.Some? && v.value.Day? ==> r == Some(IsoDate(v.value.date) + "|ALLDAY")
  {
    match v
    case None => Some("")
    case Some(Day(d)) => Some(IsoDate(d) + "|ALLDAY")
    case Some(Moment(t)) =>
      match ToUtc(t)
      case None => None
      case Some(u) => Some(IsoDateTime(u))
  }

  /** Two datetimes render alike exactly when they denote the same UTC value. */
  lemma UtcIsoMoments(t: DateTime, u: DateTime)
    requires t.Valid() && u.Valid() && ToUtc(t).Some? && ToUtc(u).Some?
    ensures UtcIso(Some(Moment(t))) == UtcIso(Some(Moment(u))) <==> ToUtc(t) == ToUtc(u)
  {
    if UtcIso(Some(Moment(t))) == UtcIso(Some(Moment(u))) {
      IsoDateTimeInjective(ToUtc(t).value, ToUtc(u).value);
    }
  }

  /** The same instant written with different offsets (or naive, read as UTC) renders to
      the same text, so the hash does not depend on the zone a value was written in. */
  lemma UtcIsoSameInstant(t: DateTime, u: DateTime)
    requires t.Valid() && u.Valid() && ToUtc(t).Some? && ToUtc(u).Some?
    requires WallMinutes(t) - OffsetMinutes(t.tz) == WallMinutes(u) - OffsetMinutes(u.tz)
    requires t.second == u.second && t.micro == u.micro
    ensures UtcIso(Some(Moment(t))) == UtcIso(Some(Moment(u)))
  {
    var a, b := ToUtc(t).value, ToUtc(u).value;
    WallMinutesInjective(a, b);
  }

  /** An all-day value never renders like a timed one. */
  lemma UtcIsoKindsDiffer(d: Date, t: DateTime)
    requires d.Valid() && t.Valid() && ToUtc(t).Some?
    ensures UtcIso(Some(Day(d))) != UtcIso(Some(Moment(t)))
  {
    var u := ToUtc(t).value;
    var s := IsoDateTime(u);
    assert s[10] == 'T';
    assert (IsoDate(d) + "|ALLDAY")[10] == '|';
  }

  // ---------------------------------------------------------------- RRULE

  /** Non-empty parts without surrounding whitespace. */
  predicate NoBlankParts(qs: seq<string>) {
    forall i :: 0 <= i < |qs| ==> qs[i] != [] && Unpadded(qs[i])
  }

  lemma NoBlankPartsCons(q: string, qs: seq<string>)
    requires q != [] && Unpadded(q) && NoBlankParts(qs)
    ensures NoBlankParts([q] + qs)
  {
    forall i | 0 <= i < |qs| + 1
      ensures ([q] + qs)[i] != [] && Unpadded(([q] + qs)[i])
    {
      if i > 0 {
        assert ([q] + qs)[i] == qs[i - 1];
      }
    }
  }

  /** Strip each part and drop the empty ones. */
  function StripParts(ps: seq<string>): (qs: seq<string>)
    ensures NoBlankParts(qs)
  {
    if ps == [] then []
    else
      var q := Strip(ps[0]);
      var rest := StripParts(ps[1..]);
      if q == [] then rest else NoBlankPartsCons(q, rest); [q] + rest
  }

  /** The non-empty stripped `;`-separated parts of a serialised rule. */
  function RruleParts(raw: string): seq<string> {
    StripParts(Split(raw, ";"))
  }

  /** `_norm_rrule` on the rule's serialised text (`None` when the event has no RRULE). */
  function NormRrule(rrule: Option<string>): string {
    match rrule
    case None => ""
    case Some(raw) => if raw == "" then "" else Join(Sort(RruleParts(raw)), ";")
  }

  /** The canonical text is the sorted `;`-join of the parts, also for an empty rule. */
  lemma NormRruleSorted(raw: string)
    ensures NormRrule(Some(raw)) == Join(Sort(RruleParts(raw)), ";")
  {
    if raw == "" {
      assert Find(raw, ";") == None;
      assert Split(raw, ";") == [""];
      assert StripParts([""]) == [];
    }
  }

  lemma {:induction false} StripPartsNoChar(ps: seq<string>, c: char)
    requires forall i :: 0 <= i < |ps| ==> c !in ps[i]
    ensures forall i :: 0 <= i < |StripParts(ps)| ==> c !in StripParts(ps)[i]
  {
    if ps != [] {
      StripNoChar(ps[0], c);
      StripPartsNoChar(ps[1..], c);
      var q, rest := Strip(ps[0]), StripParts(ps[1..]);
      if q != [] {
        assert StripParts(ps) == [q] + rest;
        forall i | 0 <= i < |rest| + 1 ensures c !in ([q] + rest)[i] {
          if i > 0 {
            assert ([q] + rest)[i] == rest[i - 1];
          }
        }
      }
    }
  }

  lemma StripNoChar(s: string, c: char)
    requires c !in s
    ensures c !in Strip(s)
  {
    var t := TrimLeft(s);
    var r := TrimRight(t);
    assert r == s[|s| - |t|..|s| - |t| + |r|];
  }

  lemma {:induction false} SplitNoSep(s: string, c: char)
    ensures forall i :: 0 <= i < |Split(s, [c])| ==> c !in Split(s, [c])[i]
    decreases |s|
  {
    match Find(s, [c])
    case None =>
      ContainsChar(s, c);
    case Some(i) =>
      BeforeFind(s, c, i);
      SplitNoSep(s[i + 1..], c);
      assert Split(s, [c]) == [s[..i]] + Split(s[i + 1..], [c]);
  }

  lemma RrulePartsShape(raw: string)
    ensures forall i :: 0 <= i < |RruleParts(raw)| ==> ';' !in RruleParts(raw)[i]
  {
    SplitNoSep(raw, ';');
    StripPartsNoChar(Split(raw, ";"), ';');
  }

  /** A `;`-join of non-empty parts is empty only for no parts. */
  lemma JoinNonEmpty(xs: seq<string>, sep: string)
    requires xs != [] && xs[0] != []
    ensures Join(xs, sep) != []
  {
  }

  /** Joining parts that are non-empty and free of `c` loses nothing. */
  lemma JoinCharInjective(xs: seq<string>, ys: seq<string>, c: char)
    requires forall i :: 0 <= i < |xs| ==> xs[i] != [] && c !in xs[i]
    requires forall i :: 0 <= i < |ys| ==> ys[i] != [] && c !in ys[i]
    requires Join(xs, [c]) == Join(ys, [c])
    ensures xs == ys
  {
    if xs == [] || ys == [] {
      if xs != [] { JoinNonEmpty(xs, [c]); }
      if ys != [] { JoinNonEmpty(ys, [c]); }
    } else {
      forall i | 0 <= i < |xs| ensures Clean(xs[i], [c]) { CleanWithoutFirstChar(xs[i], [c]); }
      forall i | 0 <= i < |ys| ensures Clean(ys[i], [c]) { CleanWithoutFirstChar(ys[i], [c]); }
      SplitJoin(xs, [c]);
      SplitJoin(ys, [c]);
    }
  }

  /** Two rules get the same canonical text exactly when they have the same parts,
      whatever their order. */
  lemma NormRruleSameParts(a: string, b: string)
    ensures NormRrule(Some(a)) == NormRrule(Some(b)) <==> multiset(RruleParts(a)) == multiset(RruleParts(b))
  {
    NormRruleSorted(a);
    NormRruleSorted(b);
    var p, q := Sort(RruleParts(a)), Sort(RruleParts(b));
    if multiset(RruleParts(a)) == multiset(RruleParts(b)) {
      SortPermutation(RruleParts(a), RruleParts(b));
    }
    if NormRrule(Some(a)) == NormRrule(Some(b)) {
      RrulePartsShape(a);
      RrulePartsShape(b);
      SortedParts(RruleParts(a));
      SortedParts(RruleParts(b));
      JoinCharInjective(p, q, ';');
    }
  }

  /** Sorting keeps every part's properties. */
  lemma SortedParts(ps: seq<string>)
    requires forall i :: 0 <= i < |ps| ==> ps[i] != [] && Unpadded(ps[i]) && ';' !in ps[i]
    ensures forall i :: 0 <= i < |Sort(ps)| ==> Sort(ps)[i] != [] && Unpadded(Sort(ps)[i]) && ';' !in Sort(ps)[i]
  {
    var s := Sort(ps);
    forall i | 0 <= i < |s| ensures s[i] != [] && Unpadded(s[i]) && ';' !in s[i] {
      assert s[i] in multiset(ps);
    }
  }

  lemma {:induction false} StripPartsKeeps(ps: seq<string>)
    requires NoBlankParts(ps)
    ensures StripParts(ps) == ps
  {
    if ps != [] {
      assert Strip(ps[0]) == ps[0];
      StripPartsKeeps(ps[1..]);
      assert StripParts(ps) == [ps[0]] + StripParts(ps[1..]);
    }
  }

  /** `_norm_rrule` is idempotent. */
  lemma NormRruleIdempotent(raw: string)
    ensures NormRrule(Some(NormRrule(Some(raw)))) == NormRrule(Some(raw))
  {
    NormRruleSorted(raw);
    var p := Sort(RruleParts(raw));
    RrulePartsShape(raw);
    SortedParts(RruleParts(raw));
    var n := Join(p, ";");
    NormRruleSorted(n);
    if p == [] {
      assert RruleParts(n) == [];
    } else {
      forall i | 0 <= i < |p| ensures Clean(p[i], ";") { CleanWithoutFirstChar(p[i], ";"); }
      SplitJoin(p, ";");
      StripPartsKeeps(p);
      SortedUnique(Sort(p), p);
    }
  }

  // ---------------------------------------------------------------- EXDATE

  /** An EXDATE property: absent, one property with its dates (and its `str()` text), or a
      list of several properties, which has no `.dts` and falls back to its `str()` text. */
  datatype Exdate = NoExdate | Exdates(dts: seq<Temporal>, repr: string) | ExdateLines(repr: string)

  predicate ValidExdate(x: Exdate) {
    x.Exdates? ==> forall i :: 0 <= i < |x.dts| ==> x.dts[i].Valid()
  }

  /** The loop of `_norm_exdate`: the UTC text of each date until one fails, then the
      property's `str()` text in place of the rest. */
  function ExdateValues(dts: seq<Temporal>, repr: string): seq<string>
    requires forall i :: 0 <= i < |dts| ==> dts[i].Valid()
  {
    if dts == [] then []
    else
      match UtcIso(Some(dts[0]))
      case None => [repr]
      case Some(s) => [s] + ExdateValues(dts[1..], repr)
  }

  /** `_norm_exdate`. */
  function NormExdate(x: Exdate): string
    requires ValidExdate(x)
  {
    match x
    case NoExdate => ""
    case Exdates(dts, repr) => Join(Sort(ExdateValues(dts, repr)), ",")
    case ExdateLines(repr) => repr
  }

  predicate Renderable(dts: seq<Temporal>)
    requires forall i :: 0 <= i < |dts| ==> dts[i].Valid()
  {
    forall i :: 0 <= i < |dts| ==> UtcIso(Some(dts[i])).Some?
  }

  /** The UTC text of one date that renders. */
  function UtcText(t: Temporal): string {
    if t.Valid() then UtcIso(Some(t)).GetOr("") else ""
  }

  /** When every date renders, the loop keeps them all, in order. */
  lemma {:induction false} ExdateValuesAll(dts: seq<Temporal>, repr: string)
    requires forall i :: 0 <= i < |dts| ==> dts[i].Valid()
    requires Renderable(dts)
    ensures ExdateValues(dts, repr) == Map(UtcText, dts)
  {
    if dts != [] {
      assert UtcIso(Some(dts[0])).Some?;
      ExdateValuesAll(dts[1..], repr);
    }
  }

  /** When every date renders, the canonical EXDATE text ignores the order of the dates. */
  lemma NormExdateOrderFree(a: seq<Temporal>, b: seq<Temporal>, repr: string)
    requires forall i :: 0 <= i < |a| ==> a[i].Valid()
    requires forall i :: 0 <= i < |b| ==> b[i].Valid()
    requires Renderable(a) && Renderable(b) && multiset(a) == multiset(b)
    ensures NormExdate(Exdates(a, repr)) == NormExdate(Exdates(b, repr))
  {
    ExdateValuesAll(a, repr);
    ExdateValuesAll(b, repr);
    MapPermutation(UtcText, a, b);
    SortPermutation(ExdateValues(a, repr), ExdateValues(b, repr));
  }

  /** A date that cannot be rendered stops the loop: the property's own text takes the
      place of it and of every later date. */
  lemma ExdateValuesStop(d: Temporal, rest: seq<Temporal>, repr: string)
    requires d.Valid() && UtcIso(Some(d)).None?
    requires forall i :: 0 <= i < |rest| ==> rest[i].Valid()
    ensures ExdateValues([d] + rest, repr) == [repr]
  {
  }

  // ---------------------------------------------------------------- stable key

  /** `uid`, or `uid#isoformat(recurrence-id)` for an instance of a recurring event. */
  function StableKey(uid: string, rid: Option<Temporal>): string
    requires ValidOpt(rid)
  {
    match rid
    case None => uid
    case Some(v) => uid + "#" + IsoFormat(v)
  }

  /** For UIDs without `#`, the stable key determines the UID and the recurrence-id. */
  lemma StableKeyInjective(u1: string, r1: Option<Temporal>, u2: string, r2: Option<Temporal>)
    requires ValidOpt(r1) && ValidOpt(r2) && '#' !in u1 && '#' !in u2
    requires StableKey(u1, r1) == StableKey(u2, r2)
    ensures u1 == u2 && r1 == r2
  {
    var k := StableKey(u1, r1);
    if r1.Some? && r2.Some? {
      var i1, i2 := IsoFormat(r1.value), IsoFormat(r2.value);
      SameUpToHash(u1, i1, u2, i2);
      IsoFormatInjective(r1.value, r2.value);
    }
  }

  lemma HashAfter(u1: string, i1: string, u2: string, i2: string)
    requires |u1| < |u2|
    ensures (u1 + "#" + i1)[|u1|] == '#' && (u2 + "#" + i2)[|u1|] == u2[|u1|]
  {
  }

  lemma SameUpToHash(u1: string, i1: string, u2: string, i2: string)
    requires '#' !in u1 && '#' !in u2 && u1 + "#" + i1 == u2 + "#" + i2
    ensures u1 == u2 && i1 == i2
  {
    var k := u1 + "#" + i1;
    if |u1| < |u2| {
      HashAfter(u1, i1, u2, i2);
      assert false;
    } else if |u2| < |u1| {
      HashAfter(u2, i2, u1, i1);
      assert false;
    }
    assert u1 == k[..|u1|];
    assert u2 == k[..|u2|];
    assert i1 == k[|u1| + 1..];
  }

  /** With a `#` in the UID a plain event and a recurrence instance can share a key. */
  lemma StableKeyCollision(d: Date)
    requires d.Valid()
    ensures StableKey("a#" + IsoDate(d), None) == StableKey("a", Some(Day(d)))
  {
  }

  // ---------------------------------------------------------------- description marker

  function Marker(key: string): string {
    "[SYNC_UID:" + key + "]"
  }

  /** The marker rule: an empty description becomes the bare marker; a non-empty one gets
      `" " + marker` appended unless that spaced marker already occurs in it. */
  function MarkDescription(desc: string, key: string): (r: string)
    ensures Contains(r, Marker(key))
    ensures desc == "" ==> r == Marker(key)
    ensures desc != "" ==> r == desc || r == desc + " " + Marker(key)
    ensures desc != "" ==> Contains(r, " " + Marker(key))
    ensures desc != "" && Contains(desc, " " + Marker(key)) ==> r == desc
    ensures desc != "" && !Contains(desc, " " + Marker(key)) ==> r == desc + " " + Marker(key)
  {
    var spaced := " " + Marker(key);
    if desc != "" then
      if Contains(desc, spaced) then
        var i := Find(desc, spaced).value;
        assert desc == desc[..i] + " " + Marker(key) + desc[i + |spaced|..] by {
          assert desc[i..i + |spaced|] == spaced;
        }
        ContainsInside(desc[..i] + " ", Marker(key), desc[i + |spaced|..]);
        ContainsInside(desc[..i], spaced, desc[i + |spaced|..]);
        desc
      else
        ContainsInside(desc + " ", Marker(key), "");
        ContainsInside(desc, spaced, "");
        assert desc + " " + Marker(key) + "" == desc + spaced;
        desc + spaced
    else
      ContainsInside("", Marker(key), "");
      Marker(key)
  }

  /** On a non-empty description the rule is idempotent. */
  lemma MarkIdempotent(desc: string, key: string)
    requires desc != ""
    ensures MarkDescription(MarkDescription(desc, key), key) == MarkDescription(desc, key)
  {
  }

  /** On the bare marker the rule appends a second copy: it is not idempotent there. */
  lemma MarkBareAppends(key: string)
    ensures MarkDescription(Marker(key), key) == Marker(key) + " " + Marker(key)
  {
    var spaced := " " + Marker(key);
    assert |spaced| > |Marker(key)|;
    assert !Contains(Marker(key), spaced);
  }

  // ---------------------------------------------------------------- event record and hash

  /** The event dictionary both sources produce. */
  datatype Event = Event(
    uid: string, stableKey: string, summary: string, description: string, location: string,
    start: Option<Temporal>, end: Option<Temporal>, created: Option<Temporal>, lastModified: Option<Temporal>,
    recurrenceId: Option<string>, rrule: string, exdate: string, isRecurringInstance: bool,
    rawData: string, sourceCalendar: Option<string>, hash: string)
  {
    predicate Valid() {
      ValidOpt(start) && ValidOpt(end) && ValidOpt(created) && ValidOpt(lastModified)
    }
  }

  /** The fields `generate_event_hash` joins, in order; `None` when a time cannot be
      rendered in UTC. */
  function HashFields(e: Event): (r: Option<seq<string>>)
    requires e.Valid()
    ensures r.Some? <==> UtcIso(e.start).Some? && UtcIso(e.end).Some?
    ensures r.Some? ==> 8 <= |r.value| <= 9 && r.value[0] == e.stableKey
  {
    match (UtcIso(e.start), UtcIso(e.end))
    case (Some(s), Some(t)) =>
      Some([e.stableKey, NormText(e.summary), NormText(e.description), NormText(e.location),
            e.rrule, e.exdate, s, t] + HashRid(e))
    case _ => None
  }

  /** The recurrence-id joins the hash only when it is present and non-empty. */
  function HashRid(e: Event): seq<string> {
    if e.recurrenceId.Some? && e.recurrenceId.value != "" then [e.recurrenceId.value] else []
  }

  /** The semantic fields of an event, as `generate_event_hash` reads them. */
  predicate SameSemantics(e1: Event, e2: Event)
    requires e1.Valid() && e2.Valid()
  {
    && e1.stableKey == e2.stableKey
    && NormText(e1.summary) == NormText(e2.summary)
    && NormText(e1.description) == NormText(e2.description)
    && NormText(e1.location) == NormText(e2.location)
    && e1.rrule == e2.rrule && e1.exdate == e2.exdate
    && UtcIso(e1.start) == UtcIso(e2.start) && UtcIso(e1.end) == UtcIso(e2.end)
    && HashRid(e1) == HashRid(e2)
  }

  /** The hashed fields are exactly the semantic fields: two events give the same field
      list iff they agree on every one of them. */
  lemma HashFieldsSemantic(e1: Event, e2: Event)
    requires e1.Valid() && e2.Valid() && HashFields(e1).Some? && HashFields(e2).Some?
    ensures HashFields(e1) == HashFields(e2) <==> SameSemantics(e1, e2)
  {
    var f1, f2 := HashFields(e1).value, HashFields(e2).value;
    if f1 == f2 {
      assert f1[1..8] == f2[1..8];
      assert f1[8..] == HashRid(e1) && f2[8..] == HashRid(e2);
    }
  }

  /** When no hashed field holds a `|`, the digested text changes exactly when a semantic
      field changes. */
  lemma HashInputSemantic(e1: Event, e2: Event)
    requires e1.Valid() && e2.Valid() && HashFields(e1).Some? && HashFields(e2).Some?
    requires NoBar(HashFields(e1).value) && NoBar(HashFields(e2).value)
    ensures HashInput(e1) == HashInput(e2) <==> SameSemantics(e1, e2)
  {
    HashFieldsSemantic(e1, e2);
    if HashInput(e1) == HashInput(e2) {
      HashInputInjective(HashFields(e1).value, HashFields(e2).value);
    }
  }

  /** The text that is digested. */
  function HashInput(e: Event): Option<string>
    requires e.Valid()
  {
    match HashFields(e)
    case None => None
    case Some(fs) => Some(Join(fs, "||"))
  }

  /** `generate_event_hash` / `_generate_event_hash`. */
  function EventHash(md5: string -> string, e: Event): Option<string>
    requires e.Valid()
  {
    match HashInput(e)
    case None => None
    case Some(h) => Some(md5(h))
  }

  /** The hash ignores the creation and modification stamps, the raw text, the source
      calendar, the UID (the stable key stands for it) and the stored hash. */
  lemma HashIgnoresMetadata(md5: string -> string, e: Event, c: Option<Temporal>, m: Option<Temporal>,
                            raw: string, src: Option<string>, uid: string, h: string)
    requires e.Valid() && ValidOpt(c) && ValidOpt(m)
    ensures EventHash(md5, e.(created := c, lastModified := m, rawData := raw, sourceCalendar := src,
                             uid := uid, hash := h)) == EventHash(md5, e)
  {
  }

  predicate NoBar(fs: seq<string>) {
    forall i :: 0 <= i < |fs| ==> '|' !in fs[i]
  }

  /** With no `|` inside any field, the joined text determines the field list. */
  lemma HashInputInjective(fs: seq<string>, gs: seq<string>)
    requires |fs| >= 1 && |gs| >= 1 && NoBar(fs) && NoBar(gs)
    requires Join(fs, "||") == Join(gs, "||")
    ensures fs == gs
  {
    forall i | 0 <= i < |fs| ensures Clean(fs[i], "||") { CleanWithoutFirstChar(fs[i], "||"); }
    forall i | 0 <= i < |gs| ensures Clean(gs[i], "||") { CleanWithoutFirstChar(gs[i], "||"); }
    SplitJoin(fs, "||");
    SplitJoin(gs, "||");
  }

  /** A field holding `||` can shift a boundary: two different field lists join alike. */
  lemma HashInputAmbiguous()
    ensures Join(["k", "a||b", "c"], "||") == Join(["k", "a", "b||c"], "||")
  {
  }

  // ---------------------------------------------------------------- iCalendar events

  /** A parsed VEVENT: text properties (empty when absent), the RRULE in serialised
      form, and date or datetime values. */
  datatype VEvent = VEvent(
    uid: Option<string>, recurrenceId: Option<Temporal>, rrule: Option<string>, exdate: Exdate,
    summary: string, description: string, location: string,
    dtstart: Option<Temporal>, dtend: Option<Temporal>, created: Option<Temporal>, lastModified: Option<Temporal>,
    raw: string)
  {
    predicate Valid() {
      && ValidOpt(recurrenceId) && ValidExdate(exdate)
      && ValidOpt(dtstart) && ValidOpt(dtend) && ValidOpt(created) && ValidOpt(lastModified)
    }
  }

  /** `parse_ical_event`: `None` without a UID, or when the hash cannot be computed. */
  function ParseIcalEvent(md5: string -> string, v: VEvent): (r: Option<Event>)
    requires v.Valid()
    ensures r.None? <==> v.uid.None? || v.uid.value == "" || UtcIso(v.dtstart).None? || UtcIso(v.dtend).None?
    ensures r.Some? ==> r.value.Valid() && r.value.uid == v.uid.value
    ensures r.Some? ==> r.value.stableKey == StableKey(v.uid.value, v.recurrenceId)
    ensures r.Some? ==> r.value.isRecurringInstance == v.recurrenceId.Some?
    ensures r.Some? ==> Contains(r.value.description, Marker(r.value.stableKey))
    ensures r.Some? ==> EventHash(md5, r.value) == Some(r.value.hash)
    // the text fields normalised, the description marked with the key
    ensures r.Some? ==> && r.value.summary == NormText(v.summary) && r.value.location == NormText(v.location)
                        && r.value.description == MarkDescription(NormText(v.description), r.value.stableKey)
    // the times as given, the recurrence-id as its isoformat text
    ensures r.Some? ==> && r.value.start == v.dtstart && r.value.end == v.dtend
                        && r.value.created == v.created && r.value.lastModified == v.lastModified
                        && (r.value.recurrenceId.Some? <==> v.recurrenceId.Some?)
                        && (v.recurrenceId.Some? ==> r.value.recurrenceId.value == IsoFormat(v.recurrenceId.value))
    // the recurrence rule and exceptions normalised; the raw text kept, no source calendar
    ensures r.Some? ==> && r.value.rrule == NormRrule(v.rrule) && r.value.exdate == NormExdate(v.exdate)
                        && r.value.rawData == v.raw && r.value.sourceCalendar.None?
  {
    if v.uid.None? || v.uid.value == "" then None
    else
      var uid := v.uid.value;
      var key := StableKey(uid, v.recurrenceId);
      var rid := if v.recurrenceId.Some? then Some(IsoFormat(v.recurrenceId.value)) else None;
      var e := Event(uid, key, NormText(v.summary), MarkDescription(NormText(v.description), key),
                     NormText(v.location), v.dtstart, v.dtend, v.created, v.lastModified, rid,
                     NormRrule(v.rrule), NormExdate(v.exdate), v.recurrenceId.Some?, v.raw, None, "");
      match EventHash(md5, e)
      case None => None
      case Some(h) =>
        HashIgnoresMetadata(md5, e, e.created, e.lastModified, e.rawData, e.sourceCalendar, e.uid, h);
        Some(e.(hash := h))
  }
}
