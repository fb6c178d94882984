/**
 * The sync ledger of cal_sync.py as values: the stored state and its legacy migration,
 * the three-way diff against the current events, marker extraction from the destination
 * listing, the recovery set, and the choice of source calendars.
 */
module Ledger {
  import opened Basics
  import opened Text
  import opened Identity
  import Markers
  import Icloud

  /** One entry of `sync_state["events"]`; `None` is a missing key. */
  datatype Entry = Entry(uid: Option<string>, summary: Option<string>, hash: Option<string>, lastSync: Option<string>)

  /** The entry written after a successful create. */
  function Fresh(e: Event, now: string): Entry {
    Entry(Some(e.uid), Some(e.summary), Some(e.hash), Some(now))
  }

  // ---------------------------------------------------------------- stored state

  /** The state file: `last_sync` and the entries of `events` in file order. */
  datatype StateFile = StateFile(lastSync: Option<string>, entries: seq<(string, Entry)>)

  datatype State = State(lastSync: Option<string>, events: map<string, Entry>)

  /** The dictionary the entries make: a later duplicate key overwrites an earlier one. */
  function Entries(entries: seq<(string, Entry)>): (m: map<string, Entry>)
    ensures forall i :: 0 <= i < |entries| ==> entries[i].0 in m
    ensures forall k :: k in m ==> exists i :: 0 <= i < |entries| && entries[i].0 == k
  {
    if entries == [] then map[]
    else
      var init := entries[..|entries| - 1];
      var last := entries[|entries| - 1];
      var m := Entries(init);
      assert forall i :: 0 <= i < |init| ==> init[i] == entries[i];
      m[last.0 := last.1]
  }

  /** `load_sync_state`: no file gives an empty state; a file whose first entry has no
      `summary` is the legacy format and its events are dropped. */
  function LoadState(file: Option<StateFile>): (s: State)
    ensures file.None? ==> s == State(None, map[])
    ensures file.Some? ==> s.lastSync == file.value.lastSync
    ensures file.Some? ==> s.events == map[] || s.events == Entries(file.value.entries)
  {
    match file
    case None => State(None, map[])
    case Some(f) =>
      var m := Entries(f.entries);
      if f.entries != [] && m[f.entries[0].0].summary.None? then State(f.lastSync, map[])
      else State(f.lastSync, m)
  }

  /** Only the first entry is inspected: without a `summary` it drops every entry, with one
      every entry is kept, whatever the others look like. */
  lemma MigrationInspectsFirst(f: StateFile)
    requires f.entries != [] && forall i :: 1 <= i < |f.entries| ==> f.entries[i].0 != f.entries[0].0
    ensures f.entries[0].1.summary.None? ==> LoadState(Some(f)).events == map[]
    ensures f.entries[0].1.summary.Some? ==> LoadState(Some(f)).events == Entries(f.entries)
  {
    FirstEntryValue(f.entries);
  }

  lemma {:induction false} FirstEntryValue(entries: seq<(string, Entry)>)
    requires entries != [] && forall i :: 1 <= i < |entries| ==> entries[i].0 != entries[0].0
    ensures Entries(entries)[entries[0].0] == entries[0].1
  {
    if |entries| > 1 {
      var init := entries[..|entries| - 1];
      FirstEntryValue(init);
    }
  }

  // ---------------------------------------------------------------- the diff

  /** `{event["stable_key"] for event in events}`. */
  function SourceKeys(current: seq<Event>): set<string> {
    set e | e in current :: e.stableKey
  }

  /** A ledger key that no current event has any more, as `detect_changes` reports it. */
  datatype Deletion = Deletion(uid: string, key: string, summary: string)

  datatype Changes = Changes(added: seq<Event>, modified: seq<Event>, deleted: set<Deletion>)

  /** An event whose key is in the ledger while its entry has no `hash` (a `KeyError`). */
  predicate HashMissing(ledger: map<string, Entry>, current: seq<Event>) {
    exists e :: e in current && e.stableKey in ledger && ledger[e.stableKey].hash.None?
  }

  function Deleted(ledger: map<string, Entry>, current: seq<Event>): set<Deletion> {
    set k | k in ledger && k !in SourceKeys(current) :: Deletion(ledger[k].uid.GetOr(k), k, ledger[k].summary.GetOr(k))
  }

  /** An event whose key the ledger lacks. */
  function IsNew(ledger: map<string, Entry>): Event -> bool {
    (e: Event) => e.stableKey !in ledger
  }

  /** An event whose key the ledger holds with another hash. */
  function IsModified(ledger: map<string, Entry>): Event -> bool {
    (e: Event) => e.stableKey in ledger && ledger[e.stableKey].hash != Some(e.hash)
  }

  /** `detect_changes`: `None` where Python raises. */
  function DetectChanges(ledger: map<string, Entry>, current: seq<Event>): (r: Option<Changes>)
    ensures r.None? <==> HashMissing(ledger, current)
    ensures r.Some? ==> |r.value.added| + |r.value.modified| <= |current|
  {
    if HashMissing(ledger, current) then None
    else
      FilterDisjoint(IsNew(ledger), IsModified(ledger), current);
      Some(Changes(
        Filter(IsNew(ledger), current),
        Filter(IsModified(ledger), current),
        Deleted(ledger, current)))
  }

  /** Every current event is new, modified or unchanged, and lands in `added`, `modified` or
      neither accordingly. */
  lemma ChangesClassify(ledger: map<string, Entry>, current: seq<Event>, e: Event)
    requires !HashMissing(ledger, current) && e in current
    ensures var c := DetectChanges(ledger, current).value;
            && (e in c.added <==> e.stableKey !in ledger)
            && (e in c.modified <==> e.stableKey in ledger && ledger[e.stableKey].hash != Some(e.hash))
            && !(e in c.added && e in c.modified)
  {
    FilterMember(IsNew(ledger), current, e);
    FilterMember(IsModified(ledger), current, e);
  }

  /** Nothing outside the current events is added or modified. */
  lemma ChangesFromCurrent(ledger: map<string, Entry>, current: seq<Event>, e: Event)
    requires !HashMissing(ledger, current)
    requires var c := DetectChanges(ledger, current).value; e in c.added || e in c.modified
    ensures e in current
  {
    FilterMember(IsNew(ledger), current, e);
    FilterMember(IsModified(ledger), current, e);
  }

  /** The deletions are exactly the ledger keys no current event has, each described by
      its entry with the key standing in for a missing `uid` or `summary`. */
  lemma DeletedExactly(ledger: map<string, Entry>, current: seq<Event>, d: Deletion)
    ensures d in Deleted(ledger, current) <==>
              && d.key in ledger && d.key !in SourceKeys(current)
              && d.uid == ledger[d.key].uid.GetOr(d.key) && d.summary == ledger[d.key].summary.GetOr(d.key)
  {
  }

  lemma DeletedKeys(ledger: map<string, Entry>, current: seq<Event>)
    ensures (set d | d in Deleted(ledger, current) :: d.key) == ledger.Keys - SourceKeys(current)
  {
    var ks := set d | d in Deleted(ledger, current) :: d.key;
    forall k | k in ledger.Keys - SourceKeys(current) ensures k in ks {
      var d := Deletion(ledger[k].uid.GetOr(k), k, ledger[k].summary.GetOr(k));
      assert d in Deleted(ledger, current);
    }
  }
  /** When nothing is reported deleted, every ledger key is the key of a current event. */
  lemma NothingDeleted(ledger: map<string, Entry>, current: seq<Event>)
    requires Deleted(ledger, current) == {}
    ensures ledger.Keys <= SourceKeys(current)
  {
    DeletedKeys(ledger, current);
    assert ledger.Keys - SourceKeys(current) == {};
  }


  /** Ledger {A, B} against events {A, C} with A's hash unchanged: C is added, B deleted and
      nothing modified. */
  lemma ChangesExample(a: Event, c: Event, ea: Entry, b: string, eb: Entry)
    requires a.stableKey != b && c.stableKey != b && c.stableKey != a.stableKey
    requires ea.hash == Some(a.hash) && eb.hash.Some?
    ensures DetectChanges(map[a.stableKey := ea, b := eb], [a, c])
            == Some(Changes([c], [], {Deletion(eb.uid.GetOr(b), b, eb.summary.GetOr(b))}))
  {
    var ledger := map[a.stableKey := ea, b := eb];
    var current := [a, c];
    assert SourceKeys(current) == {a.stableKey, c.stableKey};
    assert !HashMissing(ledger, current);
    assert [a, c][1..] == [c] && [c][1..] == [];
    assert Filter(IsNew(ledger), [c]) == [c];
    assert Filter(IsNew(ledger), current) == [c];
    assert Filter(IsModified(ledger), [c]) == [];
    assert Filter(IsModified(ledger), current) == [];
    var d := Deletion(eb.uid.GetOr(b), b, eb.summary.GetOr(b));
    forall x | x in Deleted(ledger, current) ensures x == d {
      DeletedExactly(ledger, current, x);
    }
    DeletedExactly(ledger, current, d);
    assert Deleted(ledger, current) == {d};
  }

  // ---------------------------------------------------------------- markers and recovery

  /** `extract_sync_keys_from_icloud_events`: the keys of the markers in every non-empty
      description. */
  function ExtractSyncKeys(rows: seq<Icloud.Row>): set<string> {
    if rows == [] then {}
    else
      (if rows[0].description != "" then set k | k in Markers.Markers(rows[0].description) else {})
      + ExtractSyncKeys(rows[1..])
  }

  lemma {:induction false} ExtractSyncKeysSpec(rows: seq<Icloud.Row>, k: string)
    ensures k in ExtractSyncKeys(rows) <==> exists i :: 0 <= i < |rows| && k in Markers.Markers(rows[i].description)
  {
    if rows != [] {
      ExtractSyncKeysSpec(rows[1..], k);
      if exists i :: 0 <= i < |rows| && k in Markers.Markers(rows[i].description) {
        var i :| 0 <= i < |rows| && k in Markers.Markers(rows[i].description);
        if i > 0 {
          assert rows[1..][i - 1] == rows[i];
        }
      }
    }
  }

  /** Every extracted key is non-empty, free of `]`, and comes from a whole marker in some
      description. */
  lemma ExtractedKeysSound(rows: seq<Icloud.Row>, k: string)
    requires k in ExtractSyncKeys(rows)
    ensures k != [] && ']' !in k
    ensures exists i :: 0 <= i < |rows| && Contains(rows[i].description, Marker(k))
  {
    ExtractSyncKeysSpec(rows, k);
    var i :| 0 <= i < |rows| && k in Markers.Markers(rows[i].description);
    var ms := Markers.Markers(rows[i].description);
    var j :| 0 <= j < |ms| && ms[j] == k;
    Markers.MarkersShape(rows[i].description, 0);
    Markers.MarkersSound(rows[i].description, 0);
  }

  /** A listed event whose description was marked with key `k` is recognised by `k`. */
  lemma MarkedRowFound(rows: seq<Icloud.Row>, i: nat, d: string, k: string)
    requires i < |rows| && rows[i].description == MarkDescription(d, k)
    requires '[' !in d && k != [] && ']' !in k
    ensures k in ExtractSyncKeys(rows)
  {
    Markers.MarkedDescriptionKeys(d, k);
    assert Markers.Markers(rows[i].description)[0] == k;
    ExtractSyncKeysSpec(rows, k);
  }

  /** `(state keys ∩ source keys) − destination markers`. */
  function RecoveryKeys(ledger: map<string, Entry>, current: seq<Event>, markers: set<string>): set<string> {
    (ledger.Keys * SourceKeys(current)) - markers
  }

  /** The first current event with key `k`. */
  function FirstWithKey(current: seq<Event>, k: string): (e: Event)
    requires k in SourceKeys(current)
    ensures e in current && e.stableKey == k
  {
    if current[0].stableKey == k then current[0]
    else
      assert k in SourceKeys(current[1..]) by {
        var e :| e in current && e.stableKey == k;
        assert e in current[1..] by {
          var i :| 0 <= i < |current| && current[i] == e;
          assert i != 0;
          assert current[1..][i - 1] == e;
        }
      }
      FirstWithKey(current[1..], k)
  }

  /** The events `detect_icloud_deletions` returns, as a set (Python iterates a set of
      keys): for each recovery key, the first current event with that key. A listing that
      is `"TIMEOUT"` or `None` makes the extraction raise, which gives nothing. */
  function Recovery(ledger: map<string, Entry>, current: seq<Event>, listing: Icloud.Listing): set<Event> {
    if listing.Events? then
      set k | k in RecoveryKeys(ledger, current, ExtractSyncKeys(listing.rows)) :: FirstWithKey(current, k)
    else {}
  }

  lemma RecoverySpec(ledger: map<string, Entry>, current: seq<Event>, listing: Icloud.Listing, e: Event)
    ensures e in Recovery(ledger, current, listing) <==>
              && listing.Events? && e in current && e.stableKey in ledger
              && e.stableKey !in ExtractSyncKeys(listing.rows)
              && e == FirstWithKey(current, e.stableKey)
  {
  }

  /** An event marked in the listing is never recovered, and nothing is recovered for a
      key the ledger does not hold. */
  lemma RecoveryExcludes(ledger: map<string, Entry>, current: seq<Event>, rows: seq<Icloud.Row>, e: Event)
    requires e.stableKey in ExtractSyncKeys(rows) || e.stableKey !in ledger
    ensures e !in Recovery(ledger, current, Icloud.Events(rows))
  {
  }

  // ---------------------------------------------------------------- source calendars

  datatype Calendar = Calendar(name: string, url: string)

  /** The three ways to choose calendars, in order of precedence: indices passed in,
      indices from the configuration, a calendar URL from the configuration. */
  datatype Routing = Routing(explicit: seq<int>, configured: seq<int>, url: string)

  /** The calendars at the valid 1-based indices, in index order; invalid ones are skipped. */
  function ByIndex(cals: seq<Calendar>, indices: seq<int>): seq<Calendar> {
    Collect(AtIndex(cals), indices)
  }

  /** The calendar at a 1-based index, or nothing for an index out of range. */
  function AtIndex(cals: seq<Calendar>): int -> seq<Calendar> {
    (i: int) => if 1 <= i <= |cals| then [cals[i - 1]] else []
  }

  /** The first calendar with the given URL. */
  function WithUrl(cals: seq<Calendar>, url: string): (r: Option<Calendar>)
    ensures r.Some? ==> r.value in cals && r.value.url == url
    ensures r.None? ==> forall c :: c in cals ==> c.url != url
  {
    if cals == [] then None
    else if cals[0].url == url then Some(cals[0])
    else WithUrl(cals[1..], url)
  }

  /** The calendar selection of `get_caldav_events`: the indices passed in, else the
      configured indices, else the calendar with the configured URL, else all. */
  function SelectCalendars(cals: seq<Calendar>, r: Routing): seq<Calendar> {
    if r.explicit != [] then ByIndex(cals, r.explicit)
    else if r.configured != [] then ByIndex(cals, r.configured)
    else if r.url != "" then
      match WithUrl(cals, r.url)
      case Some(c) => [c]
      case None => cals
    else cals
  }

  lemma {:induction false} ByIndexSpec(cals: seq<Calendar>, indices: seq<int>)
    ensures |ByIndex(cals, indices)| <= |indices|
    ensures forall c :: c in ByIndex(cals, indices) ==> c in cals
    ensures (forall i :: i in indices ==> 1 <= i <= |cals|) ==> |ByIndex(cals, indices)| == |indices|
    ensures (forall k :: 0 <= k < |indices| ==> 1 <= indices[k] <= |cals|) ==>
              forall k :: 0 <= k < |indices| ==> ByIndex(cals, indices)[k] == cals[indices[k] - 1]
  {
    if indices != [] {
      ByIndexSpec(cals, indices[1..]);
      assert forall i :: i in indices[1..] ==> i in indices;
      var r := ByIndex(cals, indices);
      assert r == AtIndex(cals)(indices[0]) + ByIndex(cals, indices[1..]);
      if forall i :: i in indices ==> 1 <= i <= |cals| {
        assert indices[0] in indices;
        assert AtIndex(cals)(indices[0]) == [cals[indices[0] - 1]];
      }
      if forall k :: 0 <= k < |indices| ==> 1 <= indices[k] <= |cals| {
        var tail := indices[1..];
        assert forall k :: 0 <= k < |tail| ==> tail[k] == indices[k + 1];
        assert AtIndex(cals)(indices[0]) == [cals[indices[0] - 1]];
        forall k | 1 <= k < |indices| ensures r[k] == cals[indices[k] - 1] {
          assert indices[k] == tail[k - 1];
        }
      }
    }
  }

  /** An index out of range is skipped: it leaves the selection as if it were absent. */
  lemma ByIndexSkips(cals: seq<Calendar>, before: seq<int>, i: int, after: seq<int>)
    requires !(1 <= i <= |cals|)
    ensures ByIndex(cals, before + [i] + after) == ByIndex(cals, before + after)
  {
    CollectAppend(AtIndex(cals), before + [i], after);
    CollectAppend(AtIndex(cals), before, [i]);
    CollectOne(AtIndex(cals), i);
    CollectAppend(AtIndex(cals), before, after);
  }

  /** Only calendars of the account are chosen; indices passed in win over the
      configuration; a matching URL picks exactly one calendar and an unmatched one falls
      back to all of them; with no choice at all every calendar is used. */
  lemma SelectionPrecedence(cals: seq<Calendar>, r: Routing)
    ensures forall c :: c in SelectCalendars(cals, r) ==> c in cals
    ensures r.explicit != [] ==> SelectCalendars(cals, r) == ByIndex(cals, r.explicit)
    ensures r.explicit == [] && r.configured != [] ==> SelectCalendars(cals, r) == ByIndex(cals, r.configured)
    ensures r.explicit == [] && r.configured == [] && r.url != "" ==>
              var s := SelectCalendars(cals, r);
              if exists c :: c in cals && c.url == r.url then |s| == 1 && s[0].url == r.url else s == cals
    ensures r.explicit == [] && r.configured == [] && r.url == "" ==> SelectCalendars(cals, r) == cals
  {
    ByIndexSpec(cals, r.explicit);
    ByIndexSpec(cals, r.configured);
  }
}
