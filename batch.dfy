/**
 * batch_orchestrator.py: the EventKit batch mode. A configuration may hold a list
 * `eventkit_batch_map` of mappings, each pairing one EventKit source calendar (by index)
 * with one iCloud target calendar. `run_eventkit_batch` runs one single-source sync per
 * mapping on a copy of the configuration, with a state file of its own, and counts the
 * mappings that succeed; `get_batch_summary` reports the list.
 *
 * What one sync does (connect, read the source, `force_resync` or `sync_calendars`) is a
 * `Runner`: a function from the mode, the configuration file path, the copied
 * configuration and the state file name to an `Outcome`. Logging and the eight-second
 * pause between mappings are not modelled.
 */
module Batch {
  import opened Basics
  import opened Text

  /** One element of `eventkit_batch_map`: an object with its `source_index` and
      `target_icloud_calendar_name` (`None` where the key is missing or null), or some
      other JSON value, on which `mapping.get` raises. */
  datatype Mapping = Mapping(sourceIndex: Option<int>, target: Option<string>) | NotAnObject

  /** The value under `eventkit_batch_map`: a list, or anything else (missing, null,
      an object, a number or a string). */
  datatype BatchMap = NotAList | Items(items: seq<Mapping>)

  /** The `source_routing` section. */
  datatype Routing = Routing(eventkitIndices: seq<int>, caldavIndices: seq<int>,
                             eventkitCalendars: seq<string>, fallbackOn404: bool)

  /** The parts of the configuration the batch mode reads or rewrites; `icloud` is the
      `icloud` section as a dictionary, `None` when the section is missing. */
  datatype Config = Config(batchMap: BatchMap, routing: Option<Routing>,
                           icloud: Option<map<string, string>>, configFile: Option<string>)

  /** What one mapping's sync ends in. `Invalid` is a mapping without an index or a target,
      which is never run. In force mode the runner reports a failed CalDAV or iCloud
      connection, no source events, or the result of `force_resync`; in incremental mode
      it reports the result of `sync_calendars`. `Raised` is an exception, which the loop
      catches. */
  datatype Outcome = Invalid | Raised | CaldavDown | IcloudDown | NoEvents | Synced(ok: bool)

  type Runner = (bool, string, Config, string) -> Outcome

  /** What `run_eventkit_batch` does: declines (returns `False`), raises out of the
      logging loop on an element that is not an object, or handles the batch (returns
      `True`) with this many successes out of this many mappings. */
  datatype Run = Declined | Aborted | Handled(successes: nat, total: nat)

  /** `eventkit_batch_map` is a non-empty list. */
  predicate IsBatch(b: BatchMap) {
    b.Items? && b.items != []
  }

  /** `not source_index or not target_calendar`. */
  predicate Skip(m: Mapping) {
    m.NotAnObject? || m.sourceIndex == None || m.sourceIndex == Some(0)
    || m.target == None || m.target == Some("")
  }

  predicate Valid(m: Mapping) {
    !Skip(m)
  }

  /** The copy of the configuration one mapping runs with: a single EventKit index, no
      CalDAV, no calendar names, no 404 fallback, and the target as the iCloud calendar
      name. `None` when there is no `icloud` section, where the assignment raises. */
  function Override(config: Config, sourceIndex: int, target: string): (r: Option<Config>)
  {
    match config.icloud
    case None => None
    case Some(section) =>
      Some(config.(routing := Some(Routing([sourceIndex], [], [], false)),
                   icloud := Some(section["calendar_name" := target])))
  }

  /** The copy keeps the batch list and the configuration file, routes only the mapping's
      index, names the target as the iCloud calendar and keeps every other iCloud key. */
  lemma OverrideShape(config: Config, sourceIndex: int, target: string)
    ensures Override(config, sourceIndex, target).None? <==> config.icloud.None?
    ensures var r := Override(config, sourceIndex, target);
            r.Some? ==>
              && r.value.batchMap == config.batchMap && r.value.configFile == config.configFile
              && r.value.routing.Some? && r.value.routing.value.eventkitIndices == [sourceIndex]
              && r.value.routing.value.caldavIndices == [] && r.value.routing.value.eventkitCalendars == []
              && !r.value.routing.value.fallbackOn404
              && r.value.icloud.Some? && r.value.icloud.value["calendar_name"] == target
              && forall k :: k in config.icloud.value && k != "calendar_name" ==>
                   k in r.value.icloud.value && r.value.icloud.value[k] == config.icloud.value[k]
  {
  }

  /** Each mapping overrides everything an earlier mapping overrode, so running on the copy
      another mapping produced would give the same configuration as on the original. */
  lemma OverrideForgetsEarlier(config: Config, s1: int, t1: string, s2: int, t2: string)
    requires Override(config, s1, t1).Some?
    ensures Override(Override(config, s1, t1).value, s2, t2) == Override(config, s2, t2)
  {
    var section := config.icloud.value;
    assert section["calendar_name" := t1]["calendar_name" := t2] == section["calendar_name" := t2];
  }

  const StatePrefix := "logs/sync_state_batch_"

  /** `f"logs/sync_state_batch_{source_index}_{target_calendar.replace(' ', '_')}.json"`. */
  function StateFileName(sourceIndex: int, target: string): string {
    StatePrefix + IntToString(sourceIndex) + "_" + Replace(target, " ", "_") + ".json"
  }

  lemma {:induction false} SubstituteDrops(s: string, c: char, r: string)
    requires c !in r
    ensures c !in FlatMap(Substitute(c, r), s)
  {
    if s != [] {
      SubstituteDrops(s[1..], c, r);
    }
  }

  lemma {:induction false} NatToStringNoChar(n: nat, c: char)
    requires !IsDigit(c)
    ensures c !in NatToString(n)
  {
    var s := NatToString(n);
    forall i | 0 <= i < |s| ensures s[i] != c {
      assert IsDigit(s[i]);
    }
  }

  lemma IntToStringNoChar(i: int, c: char)
    requires !IsDigit(c) && c != '-'
    ensures c !in IntToString(i)
  {
    if i < 0 {
      NatToStringNoChar(-i, c);
    } else {
      NatToStringNoChar(i, c);
    }
  }

  /** The state file name never holds a space. */
  lemma StateFileNoSpace(sourceIndex: int, target: string)
    ensures ' ' !in StateFileName(sourceIndex, target)
  {
    ReplaceChar(target, ' ', "_");
    SubstituteDrops(target, ' ', "_");
    IntToStringNoChar(sourceIndex, ' ');
  }

  /** Two mappings share a state file exactly when they have the same index and their
      targets agree once spaces are read as underscores. */
  lemma StateFileShared(s1: int, t1: string, s2: int, t2: string)
    ensures StateFileName(s1, t1) == StateFileName(s2, t2)
            <==> s1 == s2 && Replace(t1, " ", "_") == Replace(t2, " ", "_")
  {
    if StateFileName(s1, t1) == StateFileName(s2, t2) {
      var i1, i2 := IntToString(s1), IntToString(s2);
      var r1, r2 := Replace(t1, " ", "_"), Replace(t2, " ", "_");
      var a, b := i1 + "_" + r1, i2 + "_" + r2;
      assert StateFileName(s1, t1) == StatePrefix + a + ".json";
      assert StateFileName(s2, t2) == StatePrefix + b + ".json";
      assert a == StateFileName(s1, t1)[|StatePrefix|..|StateFileName(s1, t1)| - 5];
      assert a == b;
      IntToStringNoChar(s1, '_');
      IntToStringNoChar(s2, '_');
      PrefixBeforeMark(i1, r1, i2, r2);
      assert i1 == a[..|i1|] == b[..|i2|] == i2;
      assert r1 == a[|i1| + 1..] == b[|i2| + 1..] == r2;
      ParseIntRoundTrip(s1);
      ParseIntRoundTrip(s2);
    }
  }

  /** Two texts without `_` followed by `_` and anything split the same way. */
  lemma PrefixBeforeMark(x: string, r: string, y: string, q: string)
    requires '_' !in x && '_' !in y && x + "_" + r == y + "_" + q
    ensures |x| == |y|
  {
    var a := x + "_" + r;
    assert a[|x|] == '_';
    assert a[|y|] == '_';
    forall k | 0 <= k < |x| ensures a[k] != '_' {
      assert a[k] == x[k];
    }
    forall k | 0 <= k < |y| ensures a[k] != '_' {
      assert a[k] == y[k];
    }
  }

  /** Targets that differ only in a space and an underscore share the state file. */
  lemma StateFileSpaceCollision(sourceIndex: int)
    ensures StateFileName(sourceIndex, "a b") == StateFileName(sourceIndex, "a_b")
  {
    ReplaceChar("a b", ' ', "_");
    ReplaceChar("a_b", ' ', "_");
    assert FlatMap(Substitute(' ', "_"), "a b") == "a_b" by {
      assert "a b"[1..] == " b" && " b"[1..] == "b" && "b"[1..] == "";
    }
    assert FlatMap(Substitute(' ', "_"), "a_b") == "a_b" by {
      assert "a_b"[1..] == "_b" && "_b"[1..] == "b" && "b"[1..] == "";
    }
  }

  function ConfigFile(config: Config): string {
    config.configFile.GetOr("config.json")
  }

  /** One mapping of the loop: skipped without an index or a target; an exception when
      the copy cannot be made; otherwise what the runner reports for the copy and the
      mapping's own state file. */
  function Attempt(config: Config, force: bool, run: Runner, m: Mapping): (o: Outcome)
    ensures o == Invalid <==> Skip(m)
  {
    if Skip(m) then Invalid
    else
      match Override(config, m.sourceIndex.value, m.target.value)
      case None => Raised
      case Some(copy) =>
        var o := run(force, ConfigFile(config), copy, StateFileName(m.sourceIndex.value, m.target.value));
        if o == Invalid then Raised else o
  }

  function Attempts(config: Config, force: bool, run: Runner): Mapping -> Outcome {
    m => Attempt(config, force, run, m)
  }

  /** Whether the loop adds one to `success_count`: in force mode for no source events or
      a successful `force_resync`; in incremental mode for a successful `sync_calendars`. */
  predicate Counted(force: bool, o: Outcome) {
    o == Synced(true) || (force && o == NoEvents)
  }

  /** The number of mappings of `items` that count, under the outcome `attempt` gives
      each. */
  function Successes(items: seq<Mapping>, force: bool, attempt: Mapping -> Outcome): nat {
    if items == [] then 0
    else Successes(items[..|items| - 1], force, attempt)
         + (if Counted(force, attempt(items[|items| - 1])) then 1 else 0)
  }

  /** Extending the prefix by one mapping adds one exactly when that mapping counts. */
  lemma SuccessesStep(items: seq<Mapping>, i: nat, force: bool, attempt: Mapping -> Outcome)
    requires i < |items|
    ensures Successes(items[..i + 1], force, attempt)
            == Successes(items[..i], force, attempt) + (if Counted(force, attempt(items[i])) then 1 else 0)
  {
    assert items[..i + 1][..i] == items[..i];
  }

  /** The loop of `run_eventkit_batch` over mappings that are all objects. */
  method CountSuccesses(config: Config, force: bool, run: Runner, items: seq<Mapping>) returns (successes: nat)
    ensures successes == Successes(items, force, Attempts(config, force, run))
  {
    successes := 0;
    var i := 0;
    while i < |items|
      invariant 0 <= i <= |items|
      invariant successes == Successes(items[..i], force, Attempts(config, force, run))
    {
      var m := items[i];
      SuccessesStep(items, i, force, Attempts(config, force, run));
      assert Attempts(config, force, run)(m) == Attempt(config, force, run, m);
      if !Skip(m) {
        var outcome := Attempt(config, force, run, m);
        if force {
          match outcome
          case CaldavDown =>
          case IcloudDown =>
          case NoEvents => successes := successes + 1;
          case Synced(ok) => if ok { successes := successes + 1; }
          case Raised =>
          case Invalid =>
        } else if outcome == Synced(true) {
          successes := successes + 1;
        }
      }
      i := i + 1;
    }
    assert items[..i] == items;
  }

  /** `run_eventkit_batch`: declines without a non-empty list, raises on an element that is
      not an object (the first loop calls `mapping.get` on each), and otherwise counts the
      mappings that succeed. */
  method RunEventkitBatch(config: Config, force: bool, run: Runner) returns (r: Run)
    ensures r == Declined <==> !IsBatch(config.batchMap)
    ensures r == Aborted <==> IsBatch(config.batchMap) && NotAnObject in config.batchMap.items
    ensures r.Handled? ==> r.total == |config.batchMap.items|
                           && r.successes == Successes(config.batchMap.items, force, Attempts(config, force, run))
  {
    if !IsBatch(config.batchMap) {
      return Declined;
    }
    var items := config.batchMap.items;
    var i := 0;
    while i < |items|
      invariant 0 <= i <= |items|
      invariant NotAnObject !in items[..i]
    {
      if items[i].NotAnObject? {
        return Aborted;
      }
      assert items[..i + 1] == items[..i] + [items[i]];
      i := i + 1;
    }
    assert items[..i] == items;
    var successes := CountSuccesses(config, force, run, items);
    return Handled(successes, |items|);
  }

  /** Only valid mappings can count, so the count never exceeds their number. */
  lemma {:induction false} SuccessesAtMostValid(items: seq<Mapping>, config: Config, force: bool, run: Runner)
    ensures Successes(items, force, Attempts(config, force, run)) <= |Filter(Valid, items)| <= |items|
  {
    if items != [] {
      var init, last := items[..|items| - 1], items[|items| - 1];
      SuccessesAtMostValid(init, config, force, run);
      assert items == init + [last];
      FilterAppend(Valid, init, [last]);
    }
  }

  /** When every valid mapping's sync succeeds, every valid mapping counts. */
  lemma {:induction false} AllSucceed(items: seq<Mapping>, config: Config, force: bool, run: Runner)
    requires forall m :: m in items && Valid(m) ==> Attempt(config, force, run, m) == Synced(true)
    ensures Successes(items, force, Attempts(config, force, run)) == |Filter(Valid, items)|
  {
    if items != [] {
      var init, last := items[..|items| - 1], items[|items| - 1];
      AllSucceed(init, config, force, run);
      assert items == init + [last];
      FilterAppend(Valid, init, [last]);
    }
  }

  /** A mapping whose source has no events counts in either mode once both connections
      succeed: force mode counts the empty source itself, and incremental mode counts the
      `True` that `sync_calendars` returns for it (`CalSync.Syncer.SyncCalendars`). */
  lemma NoEventsCounts(m: Mapping, config: Config, inputs: (Config, string) -> ForceInputs,
                       incremental: (Config, string) -> bool)
    requires Valid(m) && config.icloud.Some?
    requires var copy := Override(config, m.sourceIndex.value, m.target.value).value;
             var file := StateFileName(m.sourceIndex.value, m.target.value);
             && inputs(copy, file).caldavOk && inputs(copy, file).icloudOk && inputs(copy, file).sourceEvents == 0
             && incremental(copy, file)
    ensures Successes([m], true, Attempts(config, true, SourceRunner(inputs, incremental, ForceOutcome))) == 1
    ensures Successes([m], false, Attempts(config, false, SourceRunner(inputs, incremental, ForceOutcome))) == 1
  {
    var copy := Override(config, m.sourceIndex.value, m.target.value).value;
    var file := StateFileName(m.sourceIndex.value, m.target.value);
    var run := SourceRunner(inputs, incremental, ForceOutcome);
    assert run(true, ConfigFile(config), copy, file) == ForceOutcome(inputs(copy, file)) == NoEvents;
    assert run(false, ConfigFile(config), copy, file) == Synced(true);
    assert [m][..0] == [];
  }

  /** An outcome that never counts gives no successes. */
  lemma {:induction false} NoneCounted(items: seq<Mapping>, force: bool, attempt: Mapping -> Outcome)
    requires forall m :: m in items ==> !Counted(force, attempt(m))
    ensures Successes(items, force, attempt) == 0
  {
    if items != [] {
      NoneCounted(items[..|items| - 1], force, attempt);
    }
  }

  /** Without an `icloud` section every valid mapping raises, and none succeeds. */
  lemma NoIcloudSection(items: seq<Mapping>, config: Config, force: bool, run: Runner)
    requires config.icloud.None?
    ensures Successes(items, force, Attempts(config, force, run)) == 0
  {
    NoneCounted(items, force, Attempts(config, force, run));
  }

  /** The syncer construction as written: `CalSync(config_file=..., caldav_indices=[],
      eventkit_calendars=[], eventkit_indices=[...])` passes keywords that the `CalSync`
      constructor, taking only `config_file`, refuses, so every valid mapping raises
      `TypeError` after the copy is made. */
  function AttemptAsWritten(config: Config, m: Mapping): (o: Outcome)
    ensures o == Invalid <==> Skip(m)
    ensures !Skip(m) ==> o == Raised
  {
    if Skip(m) then Invalid
    else
      match Override(config, m.sourceIndex.value, m.target.value)
      case None => Raised
      case Some(_) => Raised
  }

  /** As written, no mapping ever succeeds, whatever the configuration, the mode and the
      calendars. */
  lemma AsWrittenCountsNothing(items: seq<Mapping>, config: Config, force: bool)
    ensures Successes(items, force, m => AttemptAsWritten(config, m)) == 0
  {
    NoneCounted(items, force, m => AttemptAsWritten(config, m));
  }

  /** What force mode meets for one mapping: whether each connection succeeds, how many
      events the source calendar yields, and what `force_resync` returns. */
  datatype ForceInputs = ForceInputs(caldavOk: bool, icloudOk: bool, sourceEvents: nat, resyncOk: bool)

  /** Force mode as intended: connect to both sides, read the source events, count an empty
      source as done, and otherwise run `force_resync`. */
  function ForceOutcome(x: ForceInputs): (o: Outcome)
    ensures o != Invalid && o != Raised
    ensures Counted(true, o) <==> x.caldavOk && x.icloudOk && (x.sourceEvents == 0 || x.resyncOk)
  {
    if !x.caldavOk then CaldavDown
    else if !x.icloudOk then IcloudDown
    else if x.sourceEvents == 0 then NoEvents
    else Synced(x.resyncOk)
  }

  /** Force mode as written: after both connections it calls `syncer.get_source_events()`,
      which `CalSync` does not define, so the `AttributeError` ends every mapping that got
      that far. */
  function ForceOutcomeAsWritten(x: ForceInputs): (o: Outcome)
    ensures o == Raised <==> x.caldavOk && x.icloudOk
    ensures !Counted(true, o)
  {
    if !x.caldavOk then CaldavDown
    else if !x.icloudOk then IcloudDown
    else Raised
  }

  /** A runner that reads its force-mode inputs and incremental verdict per copy and state
      file, answering force mode with `outcome`. */
  function SourceRunner(inputs: (Config, string) -> ForceInputs, incremental: (Config, string) -> bool,
                        outcome: ForceInputs -> Outcome): Runner
  {
    (force, path, copy, file) => if force then outcome(inputs(copy, file)) else Synced(incremental(copy, file))
  }

  /** As written, force mode counts no mapping at all, whatever the sources hold. */
  lemma ForceAsWrittenCountsNothing(items: seq<Mapping>, config: Config,
                                    inputs: (Config, string) -> ForceInputs, incremental: (Config, string) -> bool)
    ensures Successes(items, true, Attempts(config, true, SourceRunner(inputs, incremental, ForceOutcomeAsWritten))) == 0
  {
    var run := SourceRunner(inputs, incremental, ForceOutcomeAsWritten);
    forall m | m in items ensures !Counted(true, Attempts(config, true, run)(m)) {
      if !Skip(m) && Override(config, m.sourceIndex.value, m.target.value).Some? {
        var copy := Override(config, m.sourceIndex.value, m.target.value).value;
        var file := StateFileName(m.sourceIndex.value, m.target.value);
        assert run(true, ConfigFile(config), copy, file) == ForceOutcomeAsWritten(inputs(copy, file));
      }
    }
    NoneCounted(items, true, Attempts(config, true, run));
  }

  /** With the source events read, a valid mapping counts in force mode exactly when both
      connections succeed and the source is empty or the resync succeeds. */
  lemma ForceAttemptCounts(config: Config, inputs: (Config, string) -> ForceInputs,
                           incremental: (Config, string) -> bool, m: Mapping)
    requires Valid(m) && config.icloud.Some?
    ensures var copy := Override(config, m.sourceIndex.value, m.target.value).value;
            var x := inputs(copy, StateFileName(m.sourceIndex.value, m.target.value));
            (Counted(true, Attempt(config, true, SourceRunner(inputs, incremental, ForceOutcome), m))
             <==> x.caldavOk && x.icloudOk && (x.sourceEvents == 0 || x.resyncOk))
  {
    var copy := Override(config, m.sourceIndex.value, m.target.value).value;
    var file := StateFileName(m.sourceIndex.value, m.target.value);
    assert SourceRunner(inputs, incremental, ForceOutcome)(true, ConfigFile(config), copy, file)
           == ForceOutcome(inputs(copy, file));
  }

  /** One entry of the summary's `mappings`. */
  datatype Entry = Entry(sourceIndex: Option<int>, targetCalendar: Option<string>)

  /** What `get_batch_summary` gives: `None` without a batch, an exception on an element
      that is not an object, or the summary with mode `"batch"`. */
  datatype Report = NoBatch | Fails | Summary(mode: string, totalMappings: nat, mappings: seq<Entry>)

  function EntryOf(m: Mapping): Entry
    requires m.Mapping?
  {
    Entry(m.sourceIndex, m.target)
  }

  /** The summary of a batch list: one entry per mapping, in order. */
  function BatchSummary(config: Config): (r: Report)
    ensures r == NoBatch <==> !IsBatch(config.batchMap)
    ensures r == Fails <==> IsBatch(config.batchMap) && NotAnObject in config.batchMap.items
    ensures r.Summary? ==> r.mode == "batch" && r.totalMappings == |r.mappings| == |config.batchMap.items|
  {
    if !IsBatch(config.batchMap) then NoBatch
    else if NotAnObject in config.batchMap.items then Fails
    else Summary("batch", |config.batchMap.items|, seq(|config.batchMap.items|, i requires 0 <= i < |config.batchMap.items| => EntryOf(config.batchMap.items[i])))
  }

  /** The summary loses nothing: its entries give back the batch list. */
  lemma SummaryRoundTrip(config: Config)
    requires BatchSummary(config).Summary?
    ensures var es := BatchSummary(config).mappings;
            seq(|es|, i requires 0 <= i < |es| => Mapping(es[i].sourceIndex, es[i].targetCalendar)) == config.batchMap.items
  {
    var items := config.batchMap.items;
    var es := BatchSummary(config).mappings;
    forall i | 0 <= i < |items| ensures Mapping(es[i].sourceIndex, es[i].targetCalendar) == items[i] {
      assert items[i] in items;
    }
  }

  /** `get_batch_summary`: the loop appends one entry per mapping. */
  method GetBatchSummary(config: Config) returns (r: Report)
    ensures r == BatchSummary(config)
  {
    if !IsBatch(config.batchMap) {
      return NoBatch;
    }
    var items := config.batchMap.items;
    var mappings := [];
    var i := 0;
    while i < |items|
      invariant 0 <= i <= |items|
      invariant NotAnObject !in items[..i]
      invariant |mappings| == i && forall j :: 0 <= j < i ==> mappings[j] == EntryOf(items[j])
    {
      if items[i].NotAnObject? {
        assert NotAnObject in items;
        return Fails;
      }
      assert items[..i + 1] == items[..i] + [items[i]];
      mappings := mappings + [EntryOf(items[i])];
      i := i + 1;
    }
    assert items[..i] == items;
    return Summary("batch", |items|, mappings);
  }
}
