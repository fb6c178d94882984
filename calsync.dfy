/**
 * The `CalSync` object of cal_sync.py: the sync ledger it holds in `sync_state`, and the
 * passes that change it entry by entry according to what the destination answers —
 * `sync_to_icloud`, `detect_icloud_deletions`, `verify_sync`, `force_resync` and the
 * `sync_calendars` sequence that strings them together.
 *
 * The destination is a `Client`: its calendar name, the methods it offers (`hasattr`) and
 * a bridge answering the n-th script run. `datetime.now().isoformat()` is the parameter
 * `now`; `save_sync_state` is modelled by the field `saved`, the state last written.
 */
module CalSync {
  import opened Basics
  import opened Text
  import opened Chrono
  import opened Identity
  import opened Ledger
  import Icloud

  /** The destination as the syncer sees it: the methods it offers (`hasattr`) and what
      each call answers when it is the n-th script run — `create_event` (whether it ran a
      script, and its verdict, or an exception), `delete_event_by_summary`,
      `get_existing_events` and `clear_all_events`. */
  datatype Client = Client(
    methods: set<Method>,
    create: (nat, Event) -> Icloud.Call,
    deleteBySummary: (nat, string) -> bool,
    list: nat -> Icloud.Listing,
    clear: nat -> bool)

  /** The destination methods the syncer looks up by name. */
  datatype Method = CreateEvent | DeleteEventBySummary | GetExistingEvents | ClearAllEvents

  /** The methods `sync_to_icloud` checks for before doing anything. */
  const Required: set<Method> := {CreateEvent, DeleteEventBySummary, GetExistingEvents}

  function AtOf(t: Option<Temporal>): Option<Icloud.When> {
    if t.Some? then Some(Icloud.At(t.value)) else None
  }

  /** The event dictionary as `create_event` reads it. */
  function FieldsOf(e: Event): (f: Icloud.Fields)
    ensures e.Valid() ==> Icloud.ValidFields(f)
    ensures Icloud.Truthy(f.start) <==> e.start.Some?
  {
    Icloud.Fields(e.summary, e.description, e.location, AtOf(e.start), AtOf(e.end))
  }

  /** The client is the AppleScript integration of the given calendar, its scripts answered
      by `bridge`. */
  ghost predicate Integration(c: Client, calendar: string, bridge: (nat, Icloud.Script) -> Icloud.Reply) {
    && (forall n: nat, e: Event :: e.Valid() ==> c.create(n, e) == Icloud.CreateEvent(calendar, bridge, n, FieldsOf(e)))
    && (forall n: nat, s: string :: c.deleteBySummary(n, s) == Icloud.DeleteBySummary(calendar, bridge, n, s))
    && (forall n: nat :: c.list(n) == Icloud.GetExistingEvents(calendar, bridge, n))
    && (forall n: nat :: c.clear(n) == Icloud.ClearAllEvents(calendar, bridge, n))
  }

  // ---------------------------------------------------------------- sync_to_icloud

  /** One unit of work of `sync_to_icloud`, in the order its four loops take them. */
  datatype Op = Add(e: Event) | Modify(e: Event) | Remove(d: Deletion) | Restore(e: Event)

  function OpKey(op: Op): string {
    if op.Remove? then op.d.key else op.e.stableKey
  }

  /** The ledger, the number of scripts run, the successes counted, and whether an
      exception has ended the pass. */
  datatype Pass = Pass(ledger: map<string, Entry>, runs: nat, successes: nat, raised: bool)

  /** Create the event and, when that succeeds, record it in the ledger. */
  function Upsert(c: Client, p: Pass, e: Event, now: string): Pass {
    match c.create(p.runs, e)
    case Raised => p.(raised := true)
    case Returned(ok, ran) =>
      var runs := if ran then p.runs + 1 else p.runs;
      if ok then Pass(p.ledger[e.stableKey := Fresh(e, now)], runs, p.successes + 1, false)
      else p.(runs := runs)
  }

  /** The effect of one unit of work; after an exception nothing more happens. */
  function Step(c: Client, p: Pass, op: Op, now: string): Pass {
    if p.raised then p
    else
      match op
      case Add(e) => Upsert(c, p, e, now)
      case Modify(e) => Upsert(c, p.(runs := p.runs + 1), e, now)
      case Remove(d) =>
        if c.deleteBySummary(p.runs, d.summary)
        then Pass(p.ledger - {d.key}, p.runs + 1, p.successes + 1, false)
        else p.(runs := p.runs + 1)
      case Restore(e) =>
        match c.create(p.runs, e)
        case Raised => p.(raised := true)
        case Returned(ok, ran) =>
          var runs := if ran then p.runs + 1 else p.runs;
          if !ok then p.(runs := runs)
          else if e.stableKey in p.ledger then
            Pass(p.ledger[e.stableKey := p.ledger[e.stableKey].(lastSync := Some(now))], runs, p.successes + 1, false)
          else Pass(p.ledger, runs, p.successes + 1, false)
  }

  function Adds(xs: seq<Event>): (ops: seq<Op>)
    ensures |ops| == |xs| && forall i :: 0 <= i < |xs| ==> ops[i] == Add(xs[i])
  {
    seq(|xs|, i requires 0 <= i < |xs| => Add(xs[i]))
  }

  function Modifies(xs: seq<Event>): (ops: seq<Op>)
    ensures |ops| == |xs| && forall i :: 0 <= i < |xs| ==> ops[i] == Modify(xs[i])
  {
    seq(|xs|, i requires 0 <= i < |xs| => Modify(xs[i]))
  }

  function Removes(xs: seq<Deletion>): (ops: seq<Op>)
    ensures |ops| == |xs| && forall i :: 0 <= i < |xs| ==> ops[i] == Remove(xs[i])
  {
    seq(|xs|, i requires 0 <= i < |xs| => Remove(xs[i]))
  }

  function Restores(xs: seq<Event>): (ops: seq<Op>)
    ensures |ops| == |xs| && forall i :: 0 <= i < |xs| ==> ops[i] == Restore(xs[i])
  {
    seq(|xs|, i requires 0 <= i < |xs| => Restore(xs[i]))
  }

  /** The units of work in the order `sync_to_icloud` carries them out. */
  function Ops(added: seq<Event>, modified: seq<Event>, deleted: seq<Deletion>, recovery: seq<Event>): (ops: seq<Op>)
    ensures |ops| == |added| + |modified| + |deleted| + |recovery|
  {
    Adds(added) + Modifies(modified) + Removes(deleted) + Restores(recovery)
  }

  /** The first `k` units of work carried out one after the other. */
  function RunTo(c: Client, p: Pass, ops: seq<Op>, k: nat, now: string): Pass
    requires k <= |ops|
  {
    if k == 0 then p else Step(c, RunTo(c, p, ops, k - 1, now), ops[k - 1], now)
  }

  function Run(c: Client, p: Pass, ops: seq<Op>, now: string): Pass {
    RunTo(c, p, ops, |ops|, now)
  }

  /** An exception ends the pass: nothing after it is carried out. */
  lemma {:induction false} RunStopsAtRaise(c: Client, p: Pass, ops: seq<Op>, k: nat, n: nat, now: string)
    requires k <= n <= |ops| && RunTo(c, p, ops, k, now).raised
    ensures RunTo(c, p, ops, n, now) == RunTo(c, p, ops, k, now)
    decreases n
  {
    if k < n {
      RunStopsAtRaise(c, p, ops, k, n - 1, now);
    }
  }

  /** After an exception nothing changes. */
  lemma {:induction false} RunRaised(c: Client, p: Pass, ops: seq<Op>, k: nat, now: string)
    requires k <= |ops| && p.raised
    ensures RunTo(c, p, ops, k, now) == p
    decreases k
  {
    if k > 0 {
      RunRaised(c, p, ops, k - 1, now);
    }
  }

  lemma {:induction false} RunToPrefix(c: Client, p: Pass, a: seq<Op>, b: seq<Op>, k: nat, now: string)
    requires k <= |a|
    ensures RunTo(c, p, a + b, k, now) == RunTo(c, p, a, k, now)
    decreases k
  {
    if k > 0 {
      RunToPrefix(c, p, a, b, k - 1, now);
    }
  }

  lemma {:induction false} RunToSuffix(c: Client, p: Pass, a: seq<Op>, b: seq<Op>, j: nat, now: string)
    requires j <= |b|
    ensures RunTo(c, p, a + b, |a| + j, now) == RunTo(c, Run(c, p, a, now), b, j, now)
    decreases j
  {
    if j == 0 {
      RunToPrefix(c, p, a, b, |a|, now);
    } else {
      RunToSuffix(c, p, a, b, j - 1, now);
    }
  }

  /** Carrying out two lists of work one after the other is carrying out their
      concatenation. */
  lemma RunAppend(c: Client, p: Pass, a: seq<Op>, b: seq<Op>, now: string)
    ensures Run(c, p, a + b, now) == Run(c, Run(c, p, a, now), b, now)
  {
    RunToSuffix(c, p, a, b, |b|, now);
  }

  /** The pass is its four phases in order. */
  lemma RunPhases(c: Client, p: Pass, added: seq<Event>, modified: seq<Event>, deleted: seq<Deletion>, recovery: seq<Event>, now: string)
    ensures Run(c, p, Ops(added, modified, deleted, recovery), now) ==
              Run(c, Run(c, Run(c, Run(c, p, Adds(added), now), Modifies(modified), now), Removes(deleted), now), Restores(recovery), now)
  {
    var a, m, d, r := Adds(added), Modifies(modified), Removes(deleted), Restores(recovery);
    RunAppend(c, p, a + m + d, r, now);
    RunAppend(c, p, a + m, d, now);
    RunAppend(c, p, a, m, now);
  }

  /** A successful create of an added or modified event records its current hash, so the
      next `detect_changes` finds it neither new nor modified; a failed one leaves the
      ledger as it was. */
  lemma UpsertSettles(c: Client, p: Pass, e: Event, now: string)
    requires !p.raised
    ensures var q := Upsert(c, p, e, now);
            && q.successes <= p.successes + 1
            && (q.successes == p.successes + 1 ==> !IsNew(q.ledger)(e) && !IsModified(q.ledger)(e))
            && (q.successes == p.successes ==> q.ledger == p.ledger)
  {
  }

  /** A modified event is created whatever the title delete before it answered: a
      destination whose delete answers differently gives the same outcome. */
  lemma ModifyIgnoresDelete(c: Client, delete: (nat, string) -> bool, p: Pass, e: Event, now: string)
    ensures Step(c, p, Modify(e), now) == Step(c.(deleteBySummary := delete), p, Modify(e), now)
  {
  }

  /** A deletion removes its ledger entry exactly when the destination confirms the
      delete; a recovery only stamps `last_sync` and never touches `uid`, `summary` or
      `hash`, nor the set of keys. */
  lemma StepEffects(c: Client, p: Pass, op: Op, now: string)
    requires !p.raised
    ensures var q := Step(c, p, op, now);
            && (op.Remove? ==>
                  && (q.successes == p.successes + 1 <==> c.deleteBySummary(p.runs, op.d.summary))
                  && q.ledger == (if c.deleteBySummary(p.runs, op.d.summary) then p.ledger - {op.d.key} else p.ledger))
            && (op.Restore? ==>
                  && q.ledger.Keys == p.ledger.Keys
                  && forall k :: k in q.ledger ==> q.ledger[k].(lastSync := p.ledger[k].lastSync) == p.ledger[k])
  {
  }

  /** Only the keys the units of work name can change: every other entry is kept as it was. */
  lemma {:induction false} RunUntouched(c: Client, p: Pass, ops: seq<Op>, k: nat, now: string, key: string)
    requires k <= |ops|
    requires forall i :: 0 <= i < |ops| ==> OpKey(ops[i]) != key
    ensures var q := RunTo(c, p, ops, k, now);
            && (key in q.ledger <==> key in p.ledger)
            && (key in p.ledger ==> q.ledger[key] == p.ledger[key])
    decreases k
  {
    if k > 0 {
      RunUntouched(c, p, ops, k - 1, now, key);
      StepUntouched(c, RunTo(c, p, ops, k - 1, now), ops[k - 1], now, key);
    }
  }

  /** One unit of work leaves the entry of any other key as it was. */
  lemma StepUntouched(c: Client, p: Pass, op: Op, now: string, key: string)
    requires OpKey(op) != key
    ensures var q := Step(c, p, op, now);
            && (key in q.ledger <==> key in p.ledger)
            && (key in p.ledger ==> q.ledger[key] == p.ledger[key])
  {
  }

  /** One modified event: the title delete runs and is ignored, then the create decides. */
  lemma ModifyStep(c: Client, p0: Pass, ops: seq<Op>, i: nat, e: Event, now: string)
    requires i < |ops| && ops[i] == Modify(e) && !RunTo(c, p0, ops, i, now).raised
    ensures var p, q := RunTo(c, p0, ops, i, now), RunTo(c, p0, ops, i + 1, now);
            match c.create(p.runs + 1, e)
            case Raised => q.raised
            case Returned(ok, ran) =>
              q == Pass(if ok then p.ledger[e.stableKey := Fresh(e, now)] else p.ledger,
                        if ran then p.runs + 2 else p.runs + 1, if ok then p.successes + 1 else p.successes, false)
  {
    assert RunTo(c, p0, ops, i + 1, now) == Step(c, RunTo(c, p0, ops, i, now), Modify(e), now);
  }

  /** Each unit of work counts at most one success and runs at most two scripts. */
  lemma {:induction false} RunCounts(c: Client, p: Pass, ops: seq<Op>, k: nat, now: string)
    requires k <= |ops|
    ensures var q := RunTo(c, p, ops, k, now);
            && p.successes <= q.successes <= p.successes + k
            && p.runs <= q.runs <= p.runs + 2 * k
    decreases k
  {
    if k > 0 {
      RunCounts(c, p, ops, k - 1, now);
    }
  }

  /** Through the AppleScript integration, an added event without a start runs no script,
      counts no success and leaves the ledger alone. */
  lemma AddWithoutStart(c: Client, calendar: string, bridge: (nat, Icloud.Script) -> Icloud.Reply, p: Pass, e: Event, now: string)
    requires Integration(c, calendar, bridge) && e.Valid() && e.start.None? && !p.raised
    ensures Step(c, p, Add(e), now) == p
  {
    var f := FieldsOf(e);
    assert Icloud.EnsureEndDate(f.start, f.end) == Icloud.Ensured(f.start, f.end);
    Icloud.CreateWithoutDates(calendar, bridge, p.runs, f);
  }

  // ---------------------------------------------------------------- verify_sync

  /** `a / max(b, 1)`. */
  function Ratio(a: nat, b: nat): real {
    a as real / (if b < 1 then 1 else b) as real
  }

  lemma RatioZero(b: nat)
    ensures Ratio(0, b) == 0.0
  {
  }

  /** The members of `s` that `found` also holds: Python's `s & found`. */
  function Common<T>(s: set<T>, found: set<T>): set<T> {
    set x | x in s && x in found
  }

  /** A non-empty set all of whose members are found scores 1. */
  lemma RatioWhole<T>(s: set<T>, found: set<T>)
    requires s != {} && s <= found
    ensures Ratio(|Common(s, found)|, |s|) == 1.0
  {
    assert Common(s, found) == s;
    var x :| x in s;
    assert |s| > 0;
  }

  /** `len(caldav_keys & icloud_sync_keys) / max(len(caldav_keys), 1)`. */
  function Coverage(current: seq<Event>, rows: seq<Icloud.Row>): real {
    Ratio(|Common(SourceKeys(current), ExtractSyncKeys(rows))|, |SourceKeys(current)|)
  }

  /** The non-empty stripped titles of the current events. */
  function Titles(current: seq<Event>): set<string> {
    set e | e in current && Strip(e.summary) != "" :: Strip(e.summary)
  }

  /** The non-empty stripped titles of the listed events. */
  function RowTitles(rows: seq<Icloud.Row>): set<string> {
    set r | r in rows && Strip(r.summary) != "" :: Strip(r.summary)
  }

  function TitleMatch(current: seq<Event>, rows: seq<Icloud.Row>): real {
    Ratio(|Common(Titles(current), RowTitles(rows))|, |Titles(current)|)
  }

  /** The verdict of `verify_sync` on a listing: marker coverage at least the threshold and
      title overlap at least 0.7. */
  predicate VerifyPasses(current: seq<Event>, rows: seq<Icloud.Row>, threshold: real) {
    Coverage(current, rows) >= threshold && TitleMatch(current, rows) >= 0.7
  }

  lemma ExtractSubset(a: seq<Icloud.Row>, b: seq<Icloud.Row>, k: string)
    requires forall r :: r in a ==> r in b
    requires k in ExtractSyncKeys(a)
    ensures k in ExtractSyncKeys(b)
  {
    ExtractSyncKeysSpec(a, k);
    ExtractSyncKeysSpec(b, k);
    var i :| 0 <= i < |a| && k in Markers.Markers(a[i].description);
    assert a[i] in b;
  }

  /** The verdict depends on which events are listed, not on how often or in what order:
      the count difference `verify_sync` logs never decides it. */
  lemma VerifyIgnoresCount(current: seq<Event>, a: seq<Icloud.Row>, b: seq<Icloud.Row>, threshold: real)
    requires forall r :: r in a <==> r in b
    ensures VerifyPasses(current, a, threshold) == VerifyPasses(current, b, threshold)
  {
    forall k ensures k in ExtractSyncKeys(a) <==> k in ExtractSyncKeys(b) {
      if k in ExtractSyncKeys(a) {
        ExtractSubset(a, b, k);
      }
      if k in ExtractSyncKeys(b) {
        ExtractSubset(b, a, k);
      }
    }
    assert ExtractSyncKeys(a) == ExtractSyncKeys(b);
    assert RowTitles(a) == RowTitles(b);
  }

  /** A listing that carries the marker of every current event and every non-empty title
      passes for any threshold up to 1. */
  lemma CompleteListingPasses(current: seq<Event>, rows: seq<Icloud.Row>, threshold: real)
    requires threshold <= 1.0 && Titles(current) != {}
    requires SourceKeys(current) <= ExtractSyncKeys(rows) && Titles(current) <= RowTitles(rows)
    ensures VerifyPasses(current, rows, threshold)
  {
    var t :| t in Titles(current);
    var e :| e in current && Strip(e.summary) == t;
    assert e.stableKey in SourceKeys(current);
    RatioWhole(SourceKeys(current), ExtractSyncKeys(rows));
    RatioWhole(Titles(current), RowTitles(rows));
  }

  /** With no current key among the listed markers, verification fails for any positive
      threshold. */
  lemma NoMarkersFail(current: seq<Event>, rows: seq<Icloud.Row>, threshold: real)
    requires threshold > 0.0 && SourceKeys(current) * ExtractSyncKeys(rows) == {}
    ensures !VerifyPasses(current, rows, threshold)
  {
    assert Common(SourceKeys(current), ExtractSyncKeys(rows)) == {};
    RatioZero(|SourceKeys(current)|);
  }

  /** When no current event has a non-blank title the overlap is 0 / 1, so verification
      fails however complete the listing is. */
  lemma BlankTitlesFail(current: seq<Event>, rows: seq<Icloud.Row>, threshold: real)
    requires forall e :: e in current ==> Strip(e.summary) == ""
    ensures !VerifyPasses(current, rows, threshold)
  {
    assert Titles(current) == {};
    assert Common(Titles(current), RowTitles(rows)) == {};
    RatioZero(0);
  }

  /** The ledger without the keys no current event has. */
  function Restrict(ledger: map<string, Entry>, keys: set<string>): (m: map<string, Entry>)
    ensures m.Keys == ledger.Keys * keys
    ensures forall k :: k in m ==> m[k] == ledger[k]
  {
    map k | k in ledger && k in keys :: ledger[k]
  }

  /** A map with the restricted keys and the ledger's values is the restriction. */
  lemma RestrictUnique(m: map<string, Entry>, ledger: map<string, Entry>, keys: set<string>)
    requires m.Keys == ledger.Keys * keys
    requires forall k :: k in m ==> m[k] == ledger[k]
    ensures m == Restrict(ledger, keys)
  {
  }

  /** Restricting to a superset of the keys changes nothing. */
  lemma RestrictAll(ledger: map<string, Entry>, keys: set<string>)
    requires ledger.Keys <= keys
    ensures Restrict(ledger, keys) == ledger
  {
  }

  /** Deleting one orphan from a restriction is restricting to one orphan fewer. */
  lemma RestrictDrop(ledger: map<string, Entry>, keys: set<string>, orphans: set<string>, k: string)
    requires k in orphans && orphans <= ledger.Keys - keys
    ensures Restrict(ledger, keys + orphans) - {k} == Restrict(ledger, keys + (orphans - {k}))
  {
    assert keys + orphans - {k} == keys + (orphans - {k});
  }

  /** The loop over the modified events, from the pass state `p`: delete by title,
      whatever that answers, then create; an exception ends the loop. */
  method ModifyLoop(c: Client, p: Pass, modified: seq<Event>, now: string) returns (q: Pass)
    requires !p.raised
    ensures q == Run(c, p, Modifies(modified), now)
  {
    var ledger, n, successes := p.ledger, p.runs, p.successes;
    ghost var ops := Modifies(modified);
    var i := 0;
    while i < |modified|
      invariant 0 <= i <= |modified|
      invariant RunTo(c, p, ops, i, now) == Pass(ledger, n, successes, false)
    {
      var e := modified[i];
      ModifyStep(c, p, ops, i, e, now);
      var deleteOk := c.deleteBySummary(n, e.summary);
      n := n + 1;
      var r := c.create(n, e);
      if r.Raised? {
        RunStopsAtRaise(c, p, ops, i + 1, |ops|, now);
        return Pass(ledger, n, successes, true);
      }
      if r.ran {
        n := n + 1;
      }
      if r.ok {
        ledger := ledger[e.stableKey := Fresh(e, now)];
        successes := successes + 1;
      }
      i := i + 1;
    }
    return Pass(ledger, n, successes, false);
  }

  /** The clean-up loop of `verify_sync`: delete, one by one, the entries whose keys are
      not among `keys`. */
  method DropOrphans(ledger: map<string, Entry>, keys: set<string>) returns (m: map<string, Entry>)
    ensures m == Restrict(ledger, keys)
  {
    m := ledger;
    var orphans := m.Keys - keys;
    RestrictAll(ledger, keys + orphans);
    while orphans != {}
      invariant orphans <= ledger.Keys - keys
      invariant m == Restrict(ledger, keys + orphans)
      decreases |orphans|
    {
      var k :| k in orphans;
      RestrictDrop(ledger, keys, orphans, k);
      m := m - {k};
      orphans := orphans - {k};
    }
    assert keys + orphans == keys;
  }

  // ---------------------------------------------------------------- force_resync

  /** The ledger `force_resync` writes from the first `k` current events: one fresh entry
      per event, a later event overwriting an earlier one with the same key. */
  function LedgerUpTo(current: seq<Event>, k: nat, now: string): map<string, Entry>
    requires k <= |current|
  {
    if k == 0 then map[]
    else LedgerUpTo(current, k - 1, now)[current[k - 1].stableKey := Fresh(current[k - 1], now)]
  }

  function LedgerOf(current: seq<Event>, now: string): map<string, Entry> {
    LedgerUpTo(current, |current|, now)
  }

  /** The rebuilt ledger holds exactly the keys of the events written so far. */
  lemma {:induction false} LedgerUpToKeys(current: seq<Event>, k: nat, now: string)
    requires k <= |current|
    ensures LedgerUpTo(current, k, now).Keys == set i | 0 <= i < k :: current[i].stableKey
    decreases k
  {
    if k > 0 {
      LedgerUpToKeys(current, k - 1, now);
    }
  }

  lemma LedgerOfKeys(current: seq<Event>, now: string)
    ensures LedgerOf(current, now).Keys == SourceKeys(current)
  {
    LedgerUpToKeys(current, |current|, now);
    forall k | k in SourceKeys(current) ensures k in LedgerOf(current, now) {
      var e :| e in current && e.stableKey == k;
      var i :| 0 <= i < |current| && current[i] == e;
    }
  }

  /** Each key holds the entry of the last event written with it, and that entry carries a
      hash. */
  lemma {:induction false} LedgerUpToLast(current: seq<Event>, k: nat, now: string, i: nat)
    requires i < k <= |current|
    requires forall j :: i < j < k ==> current[j].stableKey != current[i].stableKey
    ensures current[i].stableKey in LedgerUpTo(current, k, now)
    ensures LedgerUpTo(current, k, now)[current[i].stableKey] == Fresh(current[i], now)
    decreases k
  {
    if i < k - 1 {
      LedgerUpToLast(current, k - 1, now, i);
    }
  }

  lemma {:induction false} LedgerUpToHash(current: seq<Event>, k: nat, now: string, i: nat)
    requires i < k <= |current|
    ensures current[i].stableKey in LedgerUpTo(current, k, now)
    ensures LedgerUpTo(current, k, now)[current[i].stableKey].hash.Some?
    decreases k
  {
    if current[k - 1].stableKey != current[i].stableKey {
      LedgerUpToHash(current, k - 1, now, i);
    }
  }

  /** Right after a rebuild `detect_changes` reports nothing added and nothing deleted,
      and nothing modified when the current keys are distinct. */
  lemma ResyncSettles(current: seq<Event>, now: string)
    ensures var c := DetectChanges(LedgerOf(current, now), current);
            && c.Some? && c.value.added == [] && c.value.deleted == {}
            && ((forall i, j :: 0 <= i < j < |current| ==> current[i].stableKey != current[j].stableKey) ==>
                  c.value.modified == [])
  {
    var ledger := LedgerOf(current, now);
    LedgerOfKeys(current, now);
    forall e | e in current ensures e.stableKey in ledger && ledger[e.stableKey].hash.Some? {
      var i :| 0 <= i < |current| && current[i] == e;
      LedgerUpToHash(current, |current|, now, i);
    }
    assert !HashMissing(ledger, current);
    FilterNone(IsNew(ledger), current);
    assert Deleted(ledger, current) == {};
    if forall i, j :: 0 <= i < j < |current| ==> current[i].stableKey != current[j].stableKey {
      forall e | e in current ensures !IsModified(ledger)(e) {
        var i :| 0 <= i < |current| && current[i] == e;
        LedgerUpToLast(current, |current|, now, i);
      }
      FilterNone(IsModified(ledger), current);
    }
  }

  /** The run counter after creating the first `k` events, starting at `n`; `None` when a
      create raises. */
  function CreateUpTo(c: Client, n: nat, es: seq<Event>, k: nat): Option<nat>
    requires k <= |es|
  {
    if k == 0 then Some(n)
    else
      match CreateUpTo(c, n, es, k - 1)
      case None => None
      case Some(m) =>
        match c.create(m, es[k - 1])
        case Raised => None
        case Returned(_, ran) => Some(if ran then m + 1 else m)
  }

  /** Once a create raises, the remaining events are not attempted. */
  lemma {:induction false} CreateUpToStops(c: Client, n: nat, es: seq<Event>, k: nat, j: nat)
    requires k <= j <= |es| && CreateUpTo(c, n, es, k).None?
    ensures CreateUpTo(c, n, es, j).None?
    decreases j
  {
    if k < j {
      CreateUpToStops(c, n, es, k, j - 1);
    }
  }

  /** `verify_sync`'s verdict on the listing read at run `n`. */
  predicate ListingPasses(c: Client, current: seq<Event>, n: nat, threshold: real) {
    GetExistingEvents in c.methods && c.list(n).Events? && VerifyPasses(current, c.list(n).rows, threshold)
  }

  /** `force_resync`'s verdict, starting at run `n`: it fails without `clear_all_events`,
      or without `create_event` when there is something to create, or when a create raises;
      otherwise it is the verdict on the listing read after the last create. */
  predicate ResyncVerdict(c: Client, current: seq<Event>, n: nat, threshold: real) {
    if ClearAllEvents !in c.methods || (CreateEvent !in c.methods && current != []) then false
    else
      match CreateUpTo(c, n + 1, current, |current|)
      case None => false
      case Some(m) => ListingPasses(c, current, m, threshold)
  }

  /** The outcome of verifying at run `n`: the listing passes, or else the resync that
      starts at the next run succeeds. */
  predicate Verdict(c: Client, current: seq<Event>, n: nat, threshold: real) {
    ListingPasses(c, current, n, threshold) || ResyncVerdict(c, current, n + 1, threshold)
  }


  /** The state a run of the syncer leaves behind: the live `sync_state` and what
      `save_sync_state` last wrote. */
  datatype Store = Store(live: State, saved: Option<State>)

  /** What `verify_sync` leaves when it reads the listing at run `n`: once the listing is
      read, the ledger loses the keys no current event has, and is saved only if it lost one. */
  function AfterVerify(c: Client, current: seq<Event>, n: nat, s: Store): (r: Store)
    ensures r.live.lastSync == s.live.lastSync
    ensures r.live.events.Keys <= s.live.events.Keys
  {
    if GetExistingEvents !in c.methods || !c.list(n).Events? then s
    else
      var ledger := Restrict(s.live.events, SourceKeys(current));
      Store(State(s.live.lastSync, ledger),
            if s.live.events.Keys <= SourceKeys(current) then s.saved else Some(State(s.live.lastSync, ledger)))
  }

  /** Whether `force_resync`, starting at run `n`, gets past its create loop and rebuilds
      the ledger. */
  predicate Rebuilds(c: Client, current: seq<Event>, n: nat) {
    && ClearAllEvents in c.methods && (CreateEvent in c.methods || current == [])
    && CreateUpTo(c, n + 1, current, |current|).Some?
  }

  /** What `force_resync` leaves: the ledger rebuilt from the current events, stamped and
      saved, when it gets past its create loop; otherwise what it found. */
  function AfterResync(c: Client, current: seq<Event>, n: nat, s: Store, now: string): (r: Store)
    ensures Rebuilds(c, current, n) ==> r.live.events.Keys == SourceKeys(current) && r.saved == Some(r.live)
    ensures !Rebuilds(c, current, n) ==> r == s
  {
    if Rebuilds(c, current, n) then
      var rebuilt := State(Some(now), LedgerOf(current, now));
      LedgerOfKeys(current, now);
      Store(rebuilt, Some(rebuilt))
    else s
  }

  /** What verifying at run `n` leaves: the pruned state when the listing passes, and
      otherwise what the resync starting at the next run makes of it. */
  function AfterVerdict(c: Client, current: seq<Event>, n: nat, threshold: real, s: Store, now: string): Store {
    var verified := AfterVerify(c, current, n, s);
    if ListingPasses(c, current, n, threshold) then verified else AfterResync(c, current, n + 1, verified, now)
  }

  /** A successful verdict leaves no ledger entry without a current event. */
  lemma VerdictLeavesNoOrphans(c: Client, current: seq<Event>, n: nat, threshold: real, s: Store, now: string)
    requires Verdict(c, current, n, threshold)
    ensures AfterVerdict(c, current, n, threshold, s, now).live.events.Keys <= SourceKeys(current)
  {
    if !ListingPasses(c, current, n, threshold) {
      assert ResyncVerdict(c, current, n + 1, threshold);
      assert Rebuilds(c, current, n + 1);
    }
  }

  /** A failed verdict with no rebuild leaves the verified state: a failing listing still
      prunes the ledger. */
  lemma FailedVerdictPrunes(c: Client, current: seq<Event>, n: nat, threshold: real, s: Store, now: string)
    requires !ListingPasses(c, current, n, threshold) && !Rebuilds(c, current, n + 1)
    requires GetExistingEvents in c.methods && c.list(n).Events?
    ensures AfterVerdict(c, current, n, threshold, s, now).live.events == Restrict(s.live.events, SourceKeys(current))
  {
  }

  // ---------------------------------------------------------------- the syncer

  /** The elements of a sequence, as a set. */
  ghost function Members<T>(s: seq<T>): set<T> {
    set x | x in s
  }

  lemma MembersAppend<T>(s: seq<T>, x: T)
    ensures Members(s + [x]) == Members(s) + {x}
  {
  }

  /** The elements of a set listed once each, in an order the model leaves open (Python
      iterates a set). */
  method InSomeOrder<T>(s: set<T>) returns (xs: seq<T>)
    ensures Members(xs) == s && |xs| == |s|
  {
    xs := [];
    var rest := s;
    while rest != {}
      invariant rest <= s
      invariant Members(xs) == s - rest && |xs| == |s - rest|
      invariant forall x :: x in xs ==> x !in rest
      decreases |rest|
    {
      var x :| x in rest;
      MembersAppend(xs, x);
      assert s - (rest - {x}) == (s - rest) + {x};
      xs := xs + [x];
      rest := rest - {x};
    }
  }

  /** The first current event of each key in `keys`. */
  ghost function Found(current: seq<Event>, keys: set<string>): set<Event>
    requires keys <= SourceKeys(current)
  {
    set k | k in keys :: FirstWithKey(current, k)
  }

  lemma FoundAdd(current: seq<Event>, keys: set<string>, k: string)
    requires keys <= SourceKeys(current) && k in SourceKeys(current)
    ensures Found(current, keys + {k}) == Found(current, keys) + {FirstWithKey(current, k)}
  {
  }

  /** What the loop of `detect_icloud_deletions` keeps while `todo` keys remain: every key
      taken so far that no marker names has its first current event in `missing`, once. */
  ghost predicate MissingSoFar(current: seq<Event>, keys: set<string>, marks: set<string>, todo: set<string>, missing: seq<Event>)
    requires keys <= SourceKeys(current)
  {
    && todo <= keys
    && Members(missing) == Found(current, (keys - todo) - marks)
    && (forall i :: 0 <= i < |missing| ==> missing[i].stableKey !in todo)
    && (forall i, j :: 0 <= i < j < |missing| ==> missing[i].stableKey != missing[j].stableKey)
  }

  lemma MissingStep(current: seq<Event>, keys: set<string>, marks: set<string>, todo: set<string>, missing: seq<Event>, k: string)
    requires keys <= SourceKeys(current) && k in todo
    requires MissingSoFar(current, keys, marks, todo, missing)
    ensures k !in marks ==> MissingSoFar(current, keys, marks, todo - {k}, missing + [FirstWithKey(current, k)])
    ensures k in marks ==> MissingSoFar(current, keys, marks, todo - {k}, missing)
  {
    var rest := todo - {k};
    if k !in marks {
      assert (keys - rest) - marks == ((keys - todo) - marks) + {k};
      FoundAdd(current, (keys - todo) - marks, k);
      MembersAppend(missing, FirstWithKey(current, k));
    } else {
      assert (keys - rest) - marks == (keys - todo) - marks;
    }
  }

  /** The loop of `detect_icloud_deletions`: for each key of `keys` (in no particular
      order) that no marker names, the first current event with that key. */
  method MissingEvents(current: seq<Event>, keys: set<string>, marks: set<string>) returns (missing: seq<Event>)
    requires keys <= SourceKeys(current)
    ensures Members(missing) == Found(current, keys - marks)
    ensures forall i, j :: 0 <= i < j < |missing| ==> missing[i].stableKey != missing[j].stableKey
  {
    missing := [];
    var todo := keys;
    while todo != {}
      invariant MissingSoFar(current, keys, marks, todo, missing)
      decreases |todo|
    {
      var k :| k in todo;
      MissingStep(current, keys, marks, todo, missing, k);
      if k !in marks {
        missing := missing + [FirstWithKey(current, k)];
      }
      todo := todo - {k};
    }
    assert keys - todo == keys;
  }

  class Syncer {
    /** `sync_state["events"]`. */
    var events: map<string, Entry>
    /** `sync_state["last_sync"]`. */
    var lastSync: Option<string>
    /** How many scripts the destination has run so far. */
    var runs: nat
    /** What `save_sync_state` last wrote. */
    var saved: Option<State>
    /** The destination `connect_icloud` installed; `None` when the integration module is
        unavailable. */
    const client: Option<Client>
    /** `config["sync"]["verify_threshold"]`. */
    const threshold: real
    /** `config["sync"]["override_icloud_deletions"]`. */
    const overrideDeletions: bool

    /** The live and saved state, as one value. */
    ghost function Stored(): Store
      reads this
    {
      Store(State(lastSync, events), saved)
    }

    /** `__init__`: the state comes from `load_sync_state`. */
    constructor(file: Option<StateFile>, client: Option<Client>, threshold: real, overrideDeletions: bool)
      ensures State(lastSync, events) == LoadState(file)
      ensures runs == 0 && saved == None
      ensures this.client == client && this.threshold == threshold && this.overrideDeletions == overrideDeletions
    {
      var s := LoadState(file);
      events := s.events;
      lastSync := s.lastSync;
      runs := 0;
      saved := None;
      this.client := client;
      this.threshold := threshold;
      this.overrideDeletions := overrideDeletions;
    }

    /** `sync_to_icloud`. */
    method SyncToIcloud(added: seq<Event>, modified: seq<Event>, deleted: seq<Deletion>, recovery: seq<Event>, now: string)
      returns (ok: bool)
      modifies this
      ensures client.None? || !(Required <= client.value.methods) ==>
                !ok && events == old(events) && runs == old(runs) && lastSync == old(lastSync) && saved == old(saved)
      ensures client.Some? && Required <= client.value.methods && |added| + |modified| + |deleted| + |recovery| == 0 ==>
                ok && events == old(events) && runs == old(runs) && lastSync == old(lastSync) && saved == old(saved)
      ensures client.Some? && Required <= client.value.methods && |added| + |modified| + |deleted| + |recovery| > 0 ==>
                var q := Run(client.value, Pass(old(events), old(runs), 0, false), Ops(added, modified, deleted, recovery), now);
                && events == q.ledger && runs == q.runs
                && (q.raised ==> !ok && lastSync == old(lastSync) && saved == old(saved))
                && (!q.raised ==> ok == (q.successes > 0) && lastSync == Some(now) && saved == Some(State(lastSync, events)))
    {
      if client.None? || !(Required <= client.value.methods) {
        return false;
      }
      var c := client.value;
      if |added| + |modified| + |deleted| + |recovery| == 0 {
        return true;
      }
      ghost var p0 := Pass(events, runs, 0, false);
      RunPhases(c, p0, added, modified, deleted, recovery, now);
      var successes, raised := PushAdded(c, added, now);
      ghost var q := Pass(events, runs, successes, raised);
      if !raised {
        successes, raised := PushModified(c, modified, now, successes);
      } else {
        RunRaised(c, q, Modifies(modified), |modified|, now);
      }
      q := Pass(events, runs, successes, raised);
      if !raised {
        successes := PushDeleted(c, deleted, now, successes);
      } else {
        RunRaised(c, q, Removes(deleted), |deleted|, now);
      }
      q := Pass(events, runs, successes, raised);
      if !raised {
        successes, raised := PushRecovered(c, recovery, now, successes);
      } else {
        RunRaised(c, q, Restores(recovery), |recovery|, now);
      }
      if raised {
        return false;
      }
      lastSync := Some(now);
      saved := Some(State(lastSync, events));
      ok := successes > 0;
    }

    /** The loop over the added events. */
    method PushAdded(c: Client, added: seq<Event>, now: string) returns (successes: nat, raised: bool)
      modifies this
      ensures Pass(events, runs, successes, raised) == Run(c, Pass(old(events), old(runs), 0, false), Adds(added), now)
      ensures lastSync == old(lastSync) && saved == old(saved)
    {
      ghost var p0 := Pass(events, runs, 0, false);
      ghost var ops := Adds(added);
      successes, raised := 0, false;
      var i := 0;
      while i < |added|
        invariant 0 <= i <= |added|
        invariant RunTo(c, p0, ops, i, now) == Pass(events, runs, successes, false)
        invariant lastSync == old(lastSync) && saved == old(saved)
      {
        var e := added[i];
        var r := c.create(runs, e);
        if r.Raised? {
          RunStopsAtRaise(c, p0, ops, i + 1, |ops|, now);
          return successes, true;
        }
        if r.ran {
          runs := runs + 1;
        }
        if r.ok {
          events := events[e.stableKey := Fresh(e, now)];
          successes := successes + 1;
        }
        i := i + 1;
      }
    }

    /** The loop over the modified events: delete by title, whatever that answers, then
        create. */
    method PushModified(c: Client, modified: seq<Event>, now: string, successes0: nat) returns (successes: nat, raised: bool)
      modifies this
      ensures Pass(events, runs, successes, raised) == Run(c, Pass(old(events), old(runs), successes0, false), Modifies(modified), now)
      ensures lastSync == old(lastSync) && saved == old(saved)
    {
      var q := ModifyLoop(c, Pass(events, runs, successes0, false), modified, now);
      events, runs, successes, raised := q.ledger, q.runs, q.successes, q.raised;
    }

    /** The loop over the deletions. */
    method PushDeleted(c: Client, deleted: seq<Deletion>, now: string, successes0: nat) returns (successes: nat)
      modifies this
      ensures Pass(events, runs, successes, false) == Run(c, Pass(old(events), old(runs), successes0, false), Removes(deleted), now)
      ensures lastSync == old(lastSync) && saved == old(saved)
    {
      ghost var p0 := Pass(events, runs, successes0, false);
      ghost var ops := Removes(deleted);
      successes := successes0;
      var i := 0;
      while i < |deleted|
        invariant 0 <= i <= |deleted|
        invariant RunTo(c, p0, ops, i, now) == Pass(events, runs, successes, false)
        invariant lastSync == old(lastSync) && saved == old(saved)
      {
        var d := deleted[i];
        var deleteOk := c.deleteBySummary(runs, d.summary);
        runs := runs + 1;
        if deleteOk {
          if d.key in events {
            events := events - {d.key};
          }
          successes := successes + 1;
        }
        i := i + 1;
      }
    }

    /** The loop over the events to recover. */
    method PushRecovered(c: Client, recovery: seq<Event>, now: string, successes0: nat) returns (successes: nat, raised: bool)
      modifies this
      ensures Pass(events, runs, successes, raised) == Run(c, Pass(old(events), old(runs), successes0, false), Restores(recovery), now)
      ensures lastSync == old(lastSync) && saved == old(saved)
    {
      ghost var p0 := Pass(events, runs, successes0, false);
      ghost var ops := Restores(recovery);
      successes, raised := successes0, false;
      var i := 0;
      while i < |recovery|
        invariant 0 <= i <= |recovery|
        invariant RunTo(c, p0, ops, i, now) == Pass(events, runs, successes, false)
        invariant lastSync == old(lastSync) && saved == old(saved)
      {
        var e := recovery[i];
        var r := c.create(runs, e);
        if r.Raised? {
          RunStopsAtRaise(c, p0, ops, i + 1, |ops|, now);
          return successes, true;
        }
        if r.ran {
          runs := runs + 1;
        }
        if r.ok {
          if e.stableKey in events {
            events := events[e.stableKey := events[e.stableKey].(lastSync := Some(now))];
          }
          successes := successes + 1;
        }
        i := i + 1;
      }
    }

    /** `detect_icloud_deletions`: the current events the ledger holds whose marker the
        destination no longer lists, one per key. */
    method DetectIcloudDeletions(current: seq<Event>) returns (missing: seq<Event>)
      modifies this
      ensures events == old(events) && lastSync == old(lastSync) && saved == old(saved)
      ensures client.None? || GetExistingEvents !in client.value.methods ==> missing == [] && runs == old(runs)
      ensures client.Some? && GetExistingEvents in client.value.methods ==>
                && runs == old(runs) + 1
                && Members(missing) == Recovery(events, current, client.value.list(old(runs)))
                && forall i, j :: 0 <= i < j < |missing| ==> missing[i].stableKey != missing[j].stableKey
    {
      missing := [];
      if client.None? || GetExistingEvents !in client.value.methods {
        return;
      }
      var listing := client.value.list(runs);
      runs := runs + 1;
      if !listing.Events? {
        return;
      }
      var marks := ExtractSyncKeys(listing.rows);
      missing := MissingEvents(current, events.Keys * SourceKeys(current), marks);
    }

    /** Drops the ledger entries of keys outside `keys`. */
    method PruneOrphans(keys: set<string>)
      modifies this
      ensures events == Restrict(old(events), keys)
      ensures runs == old(runs) && lastSync == old(lastSync) && saved == old(saved)
    {
      events := DropOrphans(events, keys);
    }

    /** `verify_sync`: read the listing, drop the ledger entries of keys no current event
        has, then judge coverage and titles. */
    method VerifySync(current: seq<Event>) returns (ok: bool)
      modifies this
      ensures lastSync == old(lastSync)
      ensures client.None? || GetExistingEvents !in client.value.methods ==>
                !ok && events == old(events) && runs == old(runs) && saved == old(saved)
      ensures client.Some? && GetExistingEvents in client.value.methods ==>
                var listing := client.value.list(old(runs));
                && runs == old(runs) + 1
                && (!listing.Events? ==> !ok && events == old(events) && saved == old(saved))
                && (listing.Events? ==>
                      && events == Restrict(old(events), SourceKeys(current))
                      && saved == (if old(events).Keys <= SourceKeys(current) then old(saved) else Some(State(lastSync, events)))
                      && ok == VerifyPasses(current, listing.rows, threshold))
      ensures client.Some? ==> ok == ListingPasses(client.value, current, old(runs), threshold)
      ensures ok ==> events.Keys <= SourceKeys(current)
    {
      if client.None? || GetExistingEvents !in client.value.methods {
        return false;
      }
      var listing := client.value.list(runs);
      runs := runs + 1;
      if !listing.Events? {
        return false;
      }
      var keys := SourceKeys(current);
      if !(events.Keys <= keys) {
        PruneOrphans(keys);
        saved := Some(State(lastSync, events));
      } else {
        RestrictUnique(events, events, keys);
      }
      ok := VerifyPasses(current, listing.rows, threshold);
    }

    /** The create loop of `force_resync`: every current event in order, stopping at the
        first exception (a missing `create_event` raises at the first event). */
    method RecreateAll(c: Client, current: seq<Event>) returns (created: bool)
      modifies this
      ensures CreateEvent !in c.methods && current != [] ==> !created && runs == old(runs)
      ensures CreateEvent in c.methods || current == [] ==>
                match CreateUpTo(c, old(runs), current, |current|)
                case None => !created
                case Some(m) => created && runs == m
      ensures events == old(events) && lastSync == old(lastSync) && saved == old(saved)
    {
      ghost var n0 := runs;
      var i := 0;
      while i < |current|
        invariant 0 <= i <= |current|
        invariant CreateUpTo(c, n0, current, i) == Some(runs)
        invariant i > 0 ==> CreateEvent in c.methods
        invariant events == old(events) && lastSync == old(lastSync) && saved == old(saved)
      {
        if CreateEvent !in c.methods {
          return false;
        }
        var r := c.create(runs, current[i]);
        if r.Raised? {
          CreateUpToStops(c, n0, current, i + 1, |current|);
          return false;
        }
        if r.ran {
          runs := runs + 1;
        }
        i := i + 1;
      }
      return true;
    }

    /** The ledger rebuild of `force_resync`: one fresh entry per current event, later
        events overwriting earlier ones with the same key. */
    method RebuildLedger(current: seq<Event>, now: string)
      modifies this
      ensures events == LedgerOf(current, now)
      ensures runs == old(runs) && lastSync == old(lastSync) && saved == old(saved)
    {
      events := map[];
      var i := 0;
      while i < |current|
        invariant 0 <= i <= |current|
        invariant events == LedgerUpTo(current, i, now)
        invariant runs == old(runs) && lastSync == old(lastSync) && saved == old(saved)
      {
        var e := current[i];
        events := events[e.stableKey := Fresh(e, now)];
        i := i + 1;
      }
    }

    /** `force_resync`: clear the calendar, create every current event again, rebuild the
        ledger from the current events whatever the creates answered, and verify. */
    method ForceResync(current: seq<Event>, now: string) returns (ok: bool)
      modifies this
      ensures client.None? || ClearAllEvents !in client.value.methods ==>
                !ok && events == old(events) && runs == old(runs) && lastSync == old(lastSync) && saved == old(saved)
      ensures client.Some? && ClearAllEvents in client.value.methods && CreateEvent !in client.value.methods && current != [] ==>
                !ok && events == old(events) && runs == old(runs) + 1 && lastSync == old(lastSync) && saved == old(saved)
      ensures client.Some? && ClearAllEvents in client.value.methods && (CreateEvent in client.value.methods || current == []) ==>
                match CreateUpTo(client.value, old(runs) + 1, current, |current|)
                case None => !ok && events == old(events) && lastSync == old(lastSync) && saved == old(saved)
                case Some(m) =>
                  && events == LedgerOf(current, now) && lastSync == Some(now) && saved == Some(State(lastSync, events))
                  && ok == ListingPasses(client.value, current, m, threshold)
      ensures client.Some? ==> ok == ResyncVerdict(client.value, current, old(runs), threshold)
      ensures ok ==> events.Keys == SourceKeys(current)
    {
      if client.None? || ClearAllEvents !in client.value.methods {
        return false;
      }
      var c := client.value;
      var cleared := c.clear(runs);
      runs := runs + 1;
      var created := RecreateAll(c, current);
      if !created {
        return false;
      }
      RebuildLedger(current, now);
      lastSync := Some(now);
      saved := Some(State(lastSync, events));
      LedgerOfKeys(current, now);
      assert Restrict(events, SourceKeys(current)) == events;
      ok := VerifySync(current);
    }

    /** The tail of `sync_calendars` once there are changes: push them, and when the push
        succeeded verify, falling back to a full resync.
        `verifiedAt` is the run at which the verification read its listing, when there was one. */
    method PushAndVerify(added: seq<Event>, modified: seq<Event>, deleted: seq<Deletion>, recovery: seq<Event>,
                         current: seq<Event>, now: string) returns (ok: bool, ghost verifiedAt: Option<nat>)
      requires |added| + |modified| + |deleted| + |recovery| > 0
      modifies this
      ensures client.None? || !(Required <= client.value.methods) ==>
                !ok && verifiedAt.None? && events == old(events) && runs == old(runs) && lastSync == old(lastSync) && saved == old(saved)
      ensures client.Some? && Required <= client.value.methods ==>
                var q := Run(client.value, Pass(old(events), old(runs), 0, false), Ops(added, modified, deleted, recovery), now);
                var pushed := State(Some(now), q.ledger);
                && (q.raised ==> !ok && events == q.ledger && runs == q.runs && lastSync == old(lastSync) && saved == old(saved))
                && (!q.raised && q.successes == 0 ==> !ok && Stored() == Store(pushed, Some(pushed)) && runs == q.runs)
                && (verifiedAt.Some? <==> !q.raised && q.successes > 0)
                && (verifiedAt.Some? ==> verifiedAt.value == q.runs)
                // after a successful push, the state verification and the resync leave
                && (verifiedAt.Some? ==> Stored() == AfterVerdict(client.value, current, q.runs, threshold, Store(pushed, Some(pushed)), now))
      ensures verifiedAt.Some? ==> client.Some? && GetExistingEvents in client.value.methods
      ensures verifiedAt.Some? ==> ok == Verdict(client.value, current, verifiedAt.value, threshold)
      ensures ok ==> events.Keys <= SourceKeys(current)
    {
      var pushed := SyncToIcloud(added, modified, deleted, recovery, now);
      if !pushed {
        return false, None;
      }
      ghost var at;
      ok, at := VerifyThenResync(current, now);
      verifiedAt := Some(at);
    }

    /** Verify, and when that fails run a full resync. */
    method VerifyThenResync(current: seq<Event>, now: string) returns (ok: bool, ghost at: nat)
      requires client.Some? && GetExistingEvents in client.value.methods
      modifies this
      ensures at == old(runs)
      ensures ok == Verdict(client.value, current, at, threshold)
      ensures Stored() == AfterVerdict(client.value, current, at, threshold, Store(State(old(lastSync), old(events)), old(saved)), now)
      ensures ListingPasses(client.value, current, at, threshold) ==> runs == at + 1
      ensures ok ==> events.Keys <= SourceKeys(current)
    {
      at := runs;
      var verified := VerifySync(current);
      if verified {
        return true, at;
      }
      ok := ForceResync(current, now);
    }

    /** `sync_calendars`: connect, read, diff, recover, push, verify, and fall back to a
        full resync when verification fails.
        The deletions are pushed in an order the model leaves open (`deleted`), and the
        recovered events are those `DetectIcloudDeletions` lists (`recovery`); `verifiedAt`
        is the run at which the verification after a successful push read its listing. */
    method SyncCalendars(caldavOk: bool, icloudOk: bool, current: seq<Event>, now: string)
      returns (ok: bool, ghost deleted: seq<Deletion>, ghost recovery: seq<Event>, ghost verifiedAt: Option<nat>)
      modifies this
      ensures !caldavOk || !icloudOk ==>
                !ok && events == old(events) && runs == old(runs) && lastSync == old(lastSync) && saved == old(saved)
      ensures caldavOk && icloudOk && current == [] ==>
                ok && events == old(events) && runs == old(runs) && lastSync == old(lastSync) && saved == old(saved)
      ensures caldavOk && icloudOk && current != [] && HashMissing(old(events), current) ==>
                !ok && events == old(events) && runs == old(runs) && lastSync == old(lastSync) && saved == old(saved)
      // the diff and the recovery set
      ensures caldavOk && icloudOk && current != [] && !HashMissing(old(events), current) ==>
                var ch := DetectChanges(old(events), current).value;
                var listed := overrideDeletions && client.Some? && GetExistingEvents in client.value.methods;
                && Members(deleted) == ch.deleted && |deleted| == |ch.deleted|
                && (!listed ==> recovery == [])
                && (listed ==> Members(recovery) == Recovery(old(events), current, client.value.list(old(runs))))
      // no change: success, nothing run after the listing, the ledger untouched
      ensures caldavOk && icloudOk && current != [] && !HashMissing(old(events), current) ==>
                var ch := DetectChanges(old(events), current).value;
                var listed := overrideDeletions && client.Some? && GetExistingEvents in client.value.methods;
                |ch.added| + |ch.modified| + |ch.deleted| + |recovery| == 0 ==>
                  && ok && events == old(events) && lastSync == old(lastSync) && saved == old(saved)
                  && runs == old(runs) + (if listed then 1 else 0)
      // changes: the push, then the verification with its resync fallback
      ensures caldavOk && icloudOk && current != [] && !HashMissing(old(events), current) ==>
                var ch := DetectChanges(old(events), current).value;
                var listed := overrideDeletions && client.Some? && GetExistingEvents in client.value.methods;
                var n1 := old(runs) + (if listed then 1 else 0);
                |ch.added| + |ch.modified| + |ch.deleted| + |recovery| > 0 ==>
                  if client.None? || !(Required <= client.value.methods) then
                    !ok && events == old(events) && runs == n1 && lastSync == old(lastSync) && saved == old(saved)
                  else
                    var q := Run(client.value, Pass(old(events), n1, 0, false), Ops(ch.added, ch.modified, deleted, recovery), now);
                    var pushed := State(Some(now), q.ledger);
                    && (q.raised ==> !ok && events == q.ledger && runs == q.runs && lastSync == old(lastSync) && saved == old(saved))
                    && (!q.raised && q.successes == 0 ==> !ok && Stored() == Store(pushed, Some(pushed)) && runs == q.runs)
                    && (verifiedAt.Some? <==> !q.raised && q.successes > 0)
                    && (verifiedAt.Some? ==> verifiedAt.value == q.runs)
                    // after a successful push, the state verification and the resync leave
                    && (verifiedAt.Some? ==> Stored() == AfterVerdict(client.value, current, q.runs, threshold, Store(pushed, Some(pushed)), now))
      // the verification: success when the listing passes, otherwise the resync's verdict
      ensures verifiedAt.Some? ==> client.Some? && GetExistingEvents in client.value.methods
      ensures verifiedAt.Some? ==> ok == Verdict(client.value, current, verifiedAt.value, threshold)
      ensures ok && current != [] ==> events.Keys <= SourceKeys(current)
    {
      deleted, recovery, verifiedAt := [], [], None;
      if !caldavOk || !icloudOk {
        ok := false;
        return;
      }
      if current == [] {
        ok := true;
        return;
      }
      var changes := DetectChanges(events, current);
      if changes.None? {
        ok := false;
        return;
      }
      var added, modified := changes.value.added, changes.value.modified;
      var restored := [];
      if overrideDeletions {
        restored := DetectIcloudDeletions(current);
      }
      var dels := InSomeOrder(changes.value.deleted);
      deleted, recovery := dels, restored;
      if |added| + |modified| + |dels| + |restored| == 0 {
        assert |changes.value.deleted| == 0;
        NothingDeleted(events, current);
        ok := true;
        return;
      }
      ok, verifiedAt := PushAndVerify(added, modified, dels, restored, current, now);
    }
  }
}
