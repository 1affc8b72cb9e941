/**
 * The real-time ingestion state of the application: the store of received
 * entries, the buffer of lines received while paused, the pause and listener
 * switches, and the rule snapshot, with the handlers that change them.
 *
 * Enrichment requests of the real-time path are fire-and-forget: `Receive`
 * returns the requests it starts, and each completion is a separate call
 * `CompleteEnrichment`, which may come in any order, or never.
 */
module App {
  import opened Wrappers
  import opened Text
  import opened LogAnalyzer
  import opened RuleManager
  import opened LogParser
  import opened OllamaService

  /** An enrichment request in flight: the entry as it was sent, and the id its result is merged under. */
  datatype Dispatch = Dispatch(id: string, entry: LogEntry)

  /** The entries with the ids `freshId(0)`, `freshId(1)`, ... in order. */
  function WithIds(entries: seq<LogEntry>, freshId: nat -> string): (r: seq<LogEntry>)
    ensures |r| == |entries|
    ensures forall k :: 0 <= k < |r| ==> r[k] == entries[k].(id := Some(freshId(k)))
  {
    seq(|entries|, k requires 0 <= k < |entries| => entries[k].(id := Some(freshId(k))))
  }

  /** The requests started for `entries`: one per entry with an id that wants an analysis, in order. */
  function Dispatches(entries: seq<LogEntry>): seq<Dispatch> {
    if entries == [] then []
    else
      var last := entries[|entries| - 1];
      Dispatches(entries[..|entries| - 1])
      + if NeedsAnalysis(last) && last.id.Some? then [Dispatch(last.id.value, last)] else []
  }

  /** Every request is for an entry of the list that wants an analysis, under that entry's id. */
  lemma {:induction false} DispatchesSound(entries: seq<LogEntry>)
    ensures forall d :: d in Dispatches(entries) ==>
      NeedsAnalysis(d.entry) && d.entry.id == Some(d.id) && d.entry in entries
  {
    if entries != [] {
      var init := entries[..|entries| - 1];
      DispatchesSound(init);
      assert entries == init + [entries[|entries| - 1]];
    }
  }

  /** Every entry of the list with an id that wants an analysis gets a request. */
  lemma {:induction false} DispatchesComplete(entries: seq<LogEntry>)
    ensures forall e :: e in entries && NeedsAnalysis(e) && e.id.Some? ==> Dispatch(e.id.value, e) in Dispatches(entries)
  {
    if entries != [] {
      var init := entries[..|entries| - 1];
      DispatchesComplete(init);
      assert entries == init + [entries[|entries| - 1]];
    }
  }

  /** `entries.map(l => l.id === id ? merged : l)` */
  function MergeById(entries: seq<LogEntry>, id: string, merged: LogEntry): (r: seq<LogEntry>)
    ensures |r| == |entries|
    ensures forall i :: 0 <= i < |entries| ==> r[i] == if entries[i].id == Some(id) then merged else entries[i]
  {
    seq(|entries|, i requires 0 <= i < |entries| => if entries[i].id == Some(id) then merged else entries[i])
  }

  /** The `map` that puts `merged` in place of every entry with the given id. */
  method ReplaceById(store: seq<LogEntry>, id: string, merged: LogEntry) returns (updated: seq<LogEntry>)
    ensures updated == MergeById(store, id, merged)
  {
    ghost var target := MergeById(store, id, merged);
    updated := store;
    for i := 0 to |store|
      invariant |updated| == |store|
      invariant forall k :: 0 <= k < i ==> updated[k] == target[k]
      invariant forall k :: i <= k < |store| ==> updated[k] == store[k]
    {
      if updated[i].id == Some(id) {
        updated := updated[i := merged];
      }
    }
  }

  /** The result a completion merges: the enriched entry, under the id it was sent with. */
  function Completed(d: Dispatch, outcome: Outcome): (r: LogEntry)
    ensures r.id == Some(d.id)
  {
    AnalyzeLog(d.entry, outcome).(id := Some(d.id))
  }

  /** What draining the buffer appends: the parsed and matched entries of each line, lines in order. */
  function DrainEntries(engine: RegexEngine, lines: seq<string>, rules: seq<Rule>, now: string): seq<LogEntry> {
    if lines == [] then []
    else DrainEntries(engine, lines[..|lines| - 1], rules, now) + ParseAndMatchLogs(engine, lines[|lines| - 1], rules, now)
  }

  /** Draining one more line appends that line's entries. */
  lemma DrainStep(engine: RegexEngine, lines: seq<string>, i: nat, rules: seq<Rule>, now: string)
    requires i < |lines|
    ensures DrainEntries(engine, lines[..i + 1], rules, now)
      == DrainEntries(engine, lines[..i], rules, now) + ParseAndMatchLogs(engine, lines[i], rules, now)
  {
    assert lines[..i + 1][..i] == lines[..i];
  }

  /**
   * The `forEach` of `processBufferedLogs`: each buffered line, oldest first,
   * is parsed and matched and its entries appended; they get no ids.
   */
  method DrainLines(engine: RegexEngine, lines: seq<string>, rules: seq<Rule>, now: string)
    returns (drained: seq<LogEntry>)
    ensures drained == DrainEntries(engine, lines, rules, now)
  {
    drained := [];
    for i := 0 to |lines|
      invariant drained == DrainEntries(engine, lines[..i], rules, now)
    {
      var parsedLogs := ParseAndMatchLogs(engine, lines[i], rules, now);
      DrainStep(engine, lines, i, rules, now);
      drained := drained + parsedLogs;
    }
    assert lines[..|lines|] == lines;
  }

  /**
   * The `forEach` of `handleLogReceived` that starts the requests: every new
   * entry that wants an analysis is sent, in order, under its id.
   */
  method DispatchAll(logsWithIds: seq<LogEntry>) returns (dispatched: seq<Dispatch>)
    requires forall k :: 0 <= k < |logsWithIds| ==> logsWithIds[k].id.Some?
    ensures dispatched == Dispatches(logsWithIds)
  {
    dispatched := [];
    for i := 0 to |logsWithIds|
      invariant dispatched == Dispatches(logsWithIds[..i])
    {
      var log := logsWithIds[i];
      assert logsWithIds[..i + 1][..i] == logsWithIds[..i];
      if NeedsAnalysis(log) {
        dispatched := dispatched + [Dispatch(log.id.value, log)];
      }
    }
    assert logsWithIds[..|logsWithIds|] == logsWithIds;
  }

  /**
   * The entries of one received line get their ids, and a request is started
   * for each one that wants an analysis.
   */
  method IdentifyAndDispatch(parsedLogs: seq<LogEntry>, freshId: nat -> string)
    returns (logsWithIds: seq<LogEntry>, dispatched: seq<Dispatch>)
    ensures logsWithIds == WithIds(parsedLogs, freshId)
    ensures dispatched == Dispatches(logsWithIds)
  {
    logsWithIds := WithIds(parsedLogs, freshId);
    dispatched := DispatchAll(logsWithIds);
  }

  /** A received line is parsed and matched, its entries get their ids, and their requests are started. */
  method IngestLine(engine: RegexEngine, rawLog: string, rules: seq<Rule>, now: string, freshId: nat -> string)
    returns (logsWithIds: seq<LogEntry>, dispatched: seq<Dispatch>)
    ensures logsWithIds == WithIds(ParseAndMatchLogs(engine, rawLog, rules, now), freshId)
    ensures dispatched == Dispatches(logsWithIds)
  {
    var parsedLogs := ParseAndMatchLogs(engine, rawLog, rules, now);
    logsWithIds, dispatched := IdentifyAndDispatch(parsedLogs, freshId);
  }

  // ---------------------------------------------------------------------------
  // Identity of stored entries
  // ---------------------------------------------------------------------------

  /** No two entries of the store share an id. */
  ghost predicate UniqueIds(entries: seq<LogEntry>) {
    forall i, j :: 0 <= i < j < |entries| && entries[i].id.Some? ==> entries[i].id != entries[j].id
  }

  /** The ids `freshId` hands out for `n` entries differ from each other and from those in the store. */
  ghost predicate FreshIds(store: seq<LogEntry>, freshId: nat -> string, n: nat) {
    && (forall a, b :: 0 <= a < b < n ==> freshId(a) != freshId(b))
    && (forall a, i :: 0 <= a < n && 0 <= i < |store| ==> store[i].id != Some(freshId(a)))
  }

  /** Appending entries under fresh ids keeps the ids of the store unique. */
  lemma AppendFreshUnique(store: seq<LogEntry>, entries: seq<LogEntry>, freshId: nat -> string)
    ensures UniqueIds(store) && FreshIds(store, freshId, |entries|) ==> UniqueIds(store + WithIds(entries, freshId))
  {
    if !(UniqueIds(store) && FreshIds(store, freshId, |entries|)) {
      return;
    }
    var added := WithIds(entries, freshId);
    var all := store + added;
    forall i, j | 0 <= i < j < |all| && all[i].id.Some? ensures all[i].id != all[j].id {
      if j >= |store| {
        assert all[j] == added[j - |store|];
        if i >= |store| {
          assert all[i] == added[i - |store|];
        }
      }
    }
  }

  /** Appending entries without ids keeps the ids of the store unique. */
  lemma AppendAnonymousUnique(store: seq<LogEntry>, entries: seq<LogEntry>)
    requires UniqueIds(store)
    requires forall k :: 0 <= k < |entries| ==> entries[k].id.None?
    ensures UniqueIds(store + entries)
  {
    var all := store + entries;
    forall i, j | 0 <= i < j < |all| && all[i].id.Some? ensures all[i].id != all[j].id {
      if j >= |store| {
        assert all[j] == entries[j - |store|];
      }
    }
  }

  /** Entries parsed from text carry no id, whatever the rules. */
  lemma ParsedAnonymous(engine: RegexEngine, raw: string, rules: seq<Rule>, now: string)
    ensures forall k :: 0 <= k < |ParseAndMatchLogs(engine, raw, rules, now)| ==>
      ParseAndMatchLogs(engine, raw, rules, now)[k].id.None?
  {
    ParseRawLogsFresh(raw, now);
    ParseAndMatchLogsAt(engine, raw, rules, now);
  }

  /** Drained entries carry no id, so none of them is ever sent for analysis. */
  lemma {:induction false} DrainAnonymous(engine: RegexEngine, lines: seq<string>, rules: seq<Rule>, now: string)
    ensures forall k :: 0 <= k < |DrainEntries(engine, lines, rules, now)| ==>
      DrainEntries(engine, lines, rules, now)[k].id.None?
    ensures Dispatches(DrainEntries(engine, lines, rules, now)) == []
  {
    var drained := DrainEntries(engine, lines, rules, now);
    if lines != [] {
      var init := lines[..|lines| - 1];
      DrainAnonymous(engine, init, rules, now);
      ParsedAnonymous(engine, lines[|lines| - 1], rules, now);
    }
    NoDispatchWithoutIds(drained);
  }

  lemma {:induction false} NoDispatchWithoutIds(entries: seq<LogEntry>)
    requires forall k :: 0 <= k < |entries| ==> entries[k].id.None?
    ensures Dispatches(entries) == []
  {
    if entries != [] {
      NoDispatchWithoutIds(entries[..|entries| - 1]);
    }
  }

  /** A completion whose id is not in the store, as after a clear, leaves the store as it is. */
  lemma MergeAbsent(entries: seq<LogEntry>, id: string, merged: LogEntry)
    requires forall k :: 0 <= k < |entries| ==> entries[k].id != Some(id)
    ensures MergeById(entries, id, merged) == entries
  {
  }

  /** Completions for different ids give the same store in either order. */
  lemma CompletionsCommute(entries: seq<LogEntry>, d1: Dispatch, o1: Outcome, d2: Dispatch, o2: Outcome)
    requires d1.id != d2.id
    ensures MergeById(MergeById(entries, d1.id, Completed(d1, o1)), d2.id, Completed(d2, o2))
         == MergeById(MergeById(entries, d2.id, Completed(d2, o2)), d1.id, Completed(d1, o1))
  {
    var m1, m2 := Completed(d1, o1), Completed(d2, o2);
    var a := MergeById(MergeById(entries, d1.id, m1), d2.id, m2);
    var b := MergeById(MergeById(entries, d2.id, m2), d1.id, m1);
    forall k | 0 <= k < |entries| ensures a[k] == b[k] {
      assert m1.id == Some(d1.id) && m2.id == Some(d2.id);
    }
  }

  /** A completion keeps the ids of the store, so it keeps them unique and never loses an entry. */
  lemma CompletionKeepsIds(entries: seq<LogEntry>, d: Dispatch, o: Outcome)
    ensures var r := MergeById(entries, d.id, Completed(d, o));
      |r| == |entries| && forall k :: 0 <= k < |r| ==> r[k].id == entries[k].id
    ensures UniqueIds(entries) ==> UniqueIds(MergeById(entries, d.id, Completed(d, o)))
  {
  }

  class Pipeline {
    /** The real-time store, in arrival order. */
    var realtimeLogs: seq<LogEntry>
    /** Lines received while paused, oldest first. */
    var bufferedLogs: seq<string>
    var isPaused: bool
    var isListening: bool
    /** The rule snapshot the handlers match against. */
    var rules: seq<Rule>
    /** The entries of the last batch analysis. */
    var logs: seq<LogEntry>
    /** The engine that runs rule patterns. */
    const engine: RegexEngine

    constructor(engine: RegexEngine)
      ensures this.engine == engine
      ensures realtimeLogs == [] && bufferedLogs == [] && logs == [] && rules == []
      ensures !isPaused && !isListening
    {
      this.engine := engine;
      realtimeLogs := [];
      bufferedLogs := [];
      isPaused := false;
      isListening := false;
      rules := [];
      logs := [];
    }

    /** The rule manager hands over a new rule list. */
    method SetRules(newRules: seq<Rule>)
      modifies this`rules
      ensures rules == newRules
    {
      rules := newRules;
    }

    /**
     * `handleLogReceived`: while paused the line is buffered; otherwise its
     * entries are ingested.
     */
    method Receive(rawLog: string, now: string, freshId: nat -> string) returns (dispatched: seq<Dispatch>)
      modifies this`realtimeLogs, this`bufferedLogs
      ensures isPaused ==>
        && bufferedLogs == old(bufferedLogs) + [rawLog]
        && realtimeLogs == old(realtimeLogs) && dispatched == []
      ensures !isPaused ==>
        var added := WithIds(ParseAndMatchLogs(engine, rawLog, rules, now), freshId);
        && realtimeLogs == old(realtimeLogs) + added
        && bufferedLogs == old(bufferedLogs)
        && dispatched == Dispatches(added)
    {
      if isPaused {
        bufferedLogs := bufferedLogs + [rawLog];
        dispatched := [];
      } else {
        dispatched := Ingest(rawLog, now, freshId);
      }
    }

    /**
     * The unpaused part of `handleLogReceived`: the line's entries, with new
     * ids, are appended to the store and an enrichment request is started for
     * each one that wants an analysis (`AppendFreshUnique` says when the ids
     * of the store stay unique).
     */
    method Ingest(rawLog: string, now: string, freshId: nat -> string) returns (dispatched: seq<Dispatch>)
      modifies this`realtimeLogs
      ensures
        var added := WithIds(ParseAndMatchLogs(engine, rawLog, rules, now), freshId);
        realtimeLogs == old(realtimeLogs) + added && dispatched == Dispatches(added)
    {
      var logsWithIds;
      logsWithIds, dispatched := IngestLine(engine, rawLog, rules, now, freshId);
      realtimeLogs := realtimeLogs + logsWithIds;
    }

    /**
     * A request started by `Receive` completes: the entry with its id, if it is
     * still in the store, is replaced by the enriched entry, which keeps the id.
     */
    method CompleteEnrichment(d: Dispatch, outcome: Outcome)
      modifies this`realtimeLogs
      ensures realtimeLogs == MergeById(old(realtimeLogs), d.id, Completed(d, outcome))
    {
      var merged := Completed(d, outcome);
      realtimeLogs := ReplaceById(realtimeLogs, d.id, merged);
    }

    /** `processBufferedLogs`: the buffered lines are parsed in order, appended without ids, and the buffer emptied. */
    method ProcessBuffered(now: string)
      modifies this`realtimeLogs, this`bufferedLogs
      ensures realtimeLogs == old(realtimeLogs) + DrainEntries(engine, old(bufferedLogs), rules, now)
      ensures bufferedLogs == []
    {
      if |bufferedLogs| > 0 {
        var drained := DrainLines(engine, bufferedLogs, rules, now);
        realtimeLogs := realtimeLogs + drained;
        bufferedLogs := [];
      } else {
        assert bufferedLogs == [];
      }
    }

    /** `handleTogglePause`: the switch flips, and the buffer is drained when the stream resumes. */
    method TogglePause(now: string)
      modifies this`isPaused, this`realtimeLogs, this`bufferedLogs
      ensures isPaused == !old(isPaused)
      ensures old(isPaused) ==>
        realtimeLogs == old(realtimeLogs) + DrainEntries(engine, old(bufferedLogs), rules, now) && bufferedLogs == []
      ensures !old(isPaused) ==> realtimeLogs == old(realtimeLogs) && bufferedLogs == old(bufferedLogs)
    {
      var wasPaused := isPaused;
      isPaused := !isPaused;
      if wasPaused {
        ProcessBuffered(now);
      }
    }

    /**
     * `handleToggleListener`: the listener switch flips; on stopping, a
     * non-empty buffer is drained. The pause switch is left as it is.
     */
    method ToggleListener(now: string)
      modifies this`isListening, this`realtimeLogs, this`bufferedLogs
      ensures isListening == !old(isListening)
      ensures old(isListening) ==>
        realtimeLogs == old(realtimeLogs) + DrainEntries(engine, old(bufferedLogs), rules, now) && bufferedLogs == []
      ensures !old(isListening) ==> realtimeLogs == old(realtimeLogs) && bufferedLogs == old(bufferedLogs)
    {
      var wasListening := isListening;
      isListening := !isListening;
      if wasListening && |bufferedLogs| > 0 {
        ProcessBuffered(now);
      }
    }

    /** `handleClearRealtimeLogs`: the store and the buffer are emptied. */
    method Clear()
      modifies this`realtimeLogs, this`bufferedLogs
      ensures realtimeLogs == [] && bufferedLogs == []
    {
      realtimeLogs := [];
      bufferedLogs := [];
    }

    /**
     * `handleLogsSubmit`: pasted text is parsed and matched, then analysed as a
     * batch, and the batch result becomes the results list.
     */
    method SubmitLogs(rawLogs: string, now: string, transport: Transport) returns (progress: seq<(nat, nat)>)
      modifies this`logs
      ensures logs == BatchResult(ParseAndMatchLogs(engine, rawLogs, rules, now), EnrichStep(transport))
      ensures |progress| == |Selected(ParseAndMatchLogs(engine, rawLogs, rules, now))|
    {
      var parsedLogs := ParseAndMatchLogs(engine, rawLogs, rules, now);
      var analyzedLogs;
      analyzedLogs, progress := BatchAnalyze(parsedLogs, transport);
      logs := analyzedLogs;
    }
  }
}
