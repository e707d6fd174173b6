/**
 * The work log: a thread's activities in order, filtered, and with the updates of one tool
 * call collapsed into a single entry.
 */
module WorkLog {
  import opened Wrappers
  import opened Sequences
  import opened TopRanked
  import opened ActivityOrder

  /** What a log entry carries before it is shown; every field but the first five is optional. */
  datatype Entry = Entry(id: string, createdAt: string, summary: string, tone: string, activityKind: string,
                         detail: Option<string>, command: Option<string>, rawCommand: Option<string>,
                         changedFiles: Option<seq<string>>, toolTitle: Option<string>, itemType: Option<string>,
                         requestKind: Option<string>, collapseKey: Option<string>)

  // ----- Collapsing --------------------------------------------------------------------

  predicate IsToolLifecycle(kind: string) {
    kind == "tool.updated" || kind == "tool.completed"
  }

  predicate ShouldCollapse(previous: Entry, next: Entry) {
    && IsToolLifecycle(previous.activityKind) && IsToolLifecycle(next.activityKind)
    && previous.activityKind != "tool.completed"
    && previous.collapseKey.Some? && previous.collapseKey == next.collapseKey
  }

  /** The elements of `s` in order, each the first time it occurs: what new Set(s) iterates over. */
  function Distinct(s: seq<string>): (r: seq<string>)
    decreases |s|
  {
    if s == [] then []
    else
      var before := Distinct(Front(s));
      if Last(s) in before then before else before + [Last(s)]
  }

  function Files(entry: Entry): seq<string> {
    match entry.changedFiles case Some(files) => files case None => []
  }

  function MergeChangedFiles(previous: seq<string>, next: seq<string>): seq<string> {
    Distinct(previous + next)
  }

  function Or<T>(next: Option<T>, previous: Option<T>): Option<T> {
    if next.Some? then next else previous
  }

  /** The fields of `next` over those of `previous`, with the changed files of both. */
  function MergeDerivedWorkLogEntries(previous: Entry, next: Entry): Entry {
    var files := MergeChangedFiles(Files(previous), Files(next));
    Entry(next.id, next.createdAt, next.summary, next.tone, next.activityKind,
          Or(next.detail, previous.detail), Or(next.command, previous.command), Or(next.rawCommand, previous.rawCommand),
          if files != [] then Some(files) else Or(next.changedFiles, previous.changedFiles),
          Or(next.toolTitle, previous.toolTitle), Or(next.itemType, previous.itemType),
          Or(next.requestKind, previous.requestKind), Or(next.collapseKey, previous.collapseKey))
  }

  // ----- Runs ----------------------------------------------------------------------------

  /** Updates of one tool call, at most the last of them its completion. */
  predicate IsRun(run: seq<Entry>)
    decreases |run|
  {
    run != [] && (|run| == 1 || (IsRun(Front(run)) && ShouldCollapse(Last(Front(run)), Last(run))))
  }

  /** `entries` cut into runs, as long as possible. */
  function Runs(entries: seq<Entry>): seq<seq<Entry>>
    decreases |entries|
  {
    if entries == [] then [] else Extended(Runs(Front(entries)), Last(entries))
  }

  function Extended(runs: seq<seq<Entry>>, entry: Entry): seq<seq<Entry>> {
    if runs != [] && Last(runs) != [] && ShouldCollapse(Last(Last(runs)), entry)
    then Front(runs) + [Last(runs) + [entry]]
    else runs + [[entry]]
  }

  function Joined(runs: seq<seq<Entry>>): seq<Entry>
    decreases |runs|
  {
    if runs == [] then [] else Joined(Front(runs)) + Last(runs)
  }

  /** Every run is one, and no run could have gone on into the next. */
  predicate AreRuns(runs: seq<seq<Entry>>)
    decreases |runs|
  {
    runs == []
    || (AreRuns(Front(runs)) && IsRun(Last(runs))
        && (Front(runs) != [] && Last(Front(runs)) != [] ==> !ShouldCollapse(Last(Last(Front(runs))), Last(runs)[0])))
  }

  lemma {:induction false} RunAt(runs: seq<seq<Entry>>, k: nat)
    requires AreRuns(runs) && k < |runs|
    ensures IsRun(runs[k])
    ensures k + 1 < |runs| && runs[k + 1] != [] ==> !ShouldCollapse(Last(runs[k]), runs[k + 1][0])
    decreases |runs|
  {
    if k + 1 < |runs| {
      RunAt(Front(runs), k);
    }
  }

  lemma ExtendedRuns(runs: seq<seq<Entry>>, entry: Entry)
    requires AreRuns(runs)
    ensures AreRuns(Extended(runs, entry)) && Joined(Extended(runs, entry)) == Joined(runs) + [entry]
  {
    var extended := Extended(runs, entry);
    assert Front([entry]) == [];
    if runs != [] && ShouldCollapse(Last(Last(runs)), entry) {
      var last := Last(runs);
      assert Front(last + [entry]) == last;
      assert Front(extended) == Front(runs) && Last(extended) == last + [entry] && (last + [entry])[0] == last[0];
      assert (Joined(Front(runs)) + last) + [entry] == Joined(Front(runs)) + (last + [entry]);
    } else {
      assert Front(extended) == runs;
    }
  }

  lemma {:induction false} RunsAreRuns(entries: seq<Entry>)
    ensures AreRuns(Runs(entries)) && Joined(Runs(entries)) == entries
    decreases |entries|
  {
    hide ShouldCollapse, Extended;
    if entries != [] {
      RunsAreRuns(Front(entries));
      ExtendedRuns(Runs(Front(entries)), Last(entries));
      assert entries == Front(entries) + [Last(entries)];
    }
  }

  /** What a run becomes: its entries merged one after the other. */
  function MergedRun(run: seq<Entry>): Entry
    requires run != []
    decreases |run|
  {
    if |run| == 1 then run[0] else MergeDerivedWorkLogEntries(MergedRun(Front(run)), Last(run))
  }

  function Merged(runs: seq<seq<Entry>>): (r: seq<Entry>)
    requires AreRuns(runs)
    decreases |runs|
  {
    if runs == [] then [] else Merged(Front(runs)) + [MergedRun(Last(runs))]
  }

  function Collapsed(entries: seq<Entry>): seq<Entry> {
    RunsAreRuns(entries);
    Merged(Runs(entries))
  }

  lemma JoinedOneMore(runs: seq<seq<Entry>>, run: seq<Entry>)
    ensures Joined(runs + [run]) == Joined(runs) + run
  {
  }

  lemma RunsOneMore(entries: seq<Entry>, entry: Entry)
    ensures Runs(entries + [entry]) == Extended(Runs(entries), entry)
  {
  }

  /** There is only one way to cut a list into runs that cannot go on. */
  lemma {:induction false} OnlyRuns(runs: seq<seq<Entry>>)
    requires AreRuns(runs)
    ensures Runs(Joined(runs)) == runs
    decreases |Joined(runs)|, |runs|
  {
    if runs != [] {
      var front, last := Front(runs), Last(runs);
      assert last == Front(last) + [Last(last)] && runs == front + [last];
      if |last| == 1 {
        OnlyRuns(front);
        assert Joined(front) + last == Joined(front) + [Last(last)];
        RunsOneMore(Joined(front), Last(last));
      } else {
        var shorter := front + [Front(last)];
        assert Front(shorter) == front && Last(shorter) == Front(last);
        JoinedOneMore(front, Front(last));
        assert Joined(front) + last == Joined(shorter) + [Last(last)];
        OnlyRuns(shorter);
        RunsOneMore(Joined(shorter), Last(last));
      }
    }
  }

  // ----- What a collapsed entry says -----------------------------------------------------

  function AllFiles(run: seq<Entry>): seq<string>
    decreases |run|
  {
    if run == [] then [] else AllFiles(Front(run)) + Files(Last(run))
  }

  /** The field of the last entry of the run that has it. */
  function LastGiven(run: seq<Entry>, field: Entry -> Option<string>): Option<string>
    decreases |run|
  {
    if run == [] then None else Or(field(Last(run)), LastGiven(Front(run), field))
  }

  lemma {:induction false} DistinctFacts(s: seq<string>)
    ensures forall x :: x in Distinct(s) <==> x in s
    ensures forall i, j | 0 <= i < j < |Distinct(s)| :: Distinct(s)[i] != Distinct(s)[j]
    decreases |s|
  {
    if s != [] {
      DistinctFacts(Front(s));
      assert s == Front(s) + [Last(s)];
    }
  }

  lemma {:induction false} DistinctTwice(a: seq<string>, b: seq<string>)
    ensures Distinct(Distinct(a) + b) == Distinct(a + b)
    decreases |b|
  {
    if b == [] {
      assert a + b == a && Distinct(a) + b == Distinct(a);
      DistinctFacts(a);
      DistinctOnce(Distinct(a));
    } else {
      DistinctTwice(a, Front(b));
      assert Front(a + b) == a + Front(b) && Front(Distinct(a) + b) == Distinct(a) + Front(b);
    }
  }

  lemma {:induction false} DistinctOnce(d: seq<string>)
    requires forall i, j | 0 <= i < j < |d| :: d[i] != d[j]
    ensures Distinct(d) == d
    decreases |d|
  {
    if d != [] {
      var front := Front(d);
      assert forall i | 0 <= i < |front| :: front[i] == d[i] && d[i] != d[|d| - 1];
      DistinctOnce(front);
      assert Last(d) !in front && d == front + [Last(d)];
    }
  }

  /**
   * A collapsed run is dated, named and keyed by its last entry; every optional field is the last
   * one given; and a run of two or more lists the changed files of all its entries, each once.
   */
  lemma {:induction false} MergedRunSays(run: seq<Entry>)
    requires IsRun(run)
    ensures var merged, last := MergedRun(run), Last(run);
      && merged.id == last.id && merged.createdAt == last.createdAt && merged.summary == last.summary
      && merged.tone == last.tone && merged.activityKind == last.activityKind && merged.collapseKey == last.collapseKey
      && merged.detail == LastGiven(run, (e: Entry) => e.detail)
      && merged.command == LastGiven(run, (e: Entry) => e.command)
      && merged.rawCommand == LastGiven(run, (e: Entry) => e.rawCommand)
      && merged.toolTitle == LastGiven(run, (e: Entry) => e.toolTitle)
      && merged.itemType == LastGiven(run, (e: Entry) => e.itemType)
      && merged.requestKind == LastGiven(run, (e: Entry) => e.requestKind)
    ensures Files(MergedRun(run)) == if |run| == 1 then Files(run[0]) else Distinct(AllFiles(run))
    decreases |run|
  {
    hide Distinct, MergeChangedFiles;
    if |run| == 1 {
      assert Front(run) == [];
    } else {
      MergedRunSays(Front(run));
    }
    MergedRunFiles(run);
  }

  lemma {:induction false} MergedRunFiles(run: seq<Entry>)
    requires IsRun(run)
    ensures Files(MergedRun(run)) == if |run| == 1 then Files(run[0]) else Distinct(AllFiles(run))
    decreases |run|
  {
    hide Distinct, MergeDerivedWorkLogEntries;
    if |run| > 1 {
      var front := Front(run);
      MergedRunFiles(front);
      MergedFiles(MergedRun(front), Last(run));
      if |front| == 1 {
        assert Front(front) == [] && AllFiles(front) == [] + Files(front[0]) == Files(front[0]);
      } else {
        DistinctTwice(AllFiles(front), Files(Last(run)));
      }
    }
  }

  lemma MergedFiles(previous: Entry, next: Entry)
    ensures Files(MergeDerivedWorkLogEntries(previous, next)) == Distinct(Files(previous) + Files(next))
  {
  }

  lemma {:induction false} RunEnds(run: seq<Entry>)
    requires IsRun(run)
    ensures run[0].collapseKey == Last(run).collapseKey
    ensures IsToolLifecycle(run[0].activityKind) <==> IsToolLifecycle(Last(run).activityKind)
    decreases |run|
  {
    if |run| > 1 {
      RunEnds(Front(run));
    }
  }

  predicate IsUpdateOf(e: Entry, key: string) {
    e.activityKind == "tool.updated" && e.collapseKey == Some(key)
  }

  /**
   * A run is one entry, or updates of one tool call followed by one more update of it or its
   * completion.
   */
  lemma {:induction false} RunShape(run: seq<Entry>)
    ensures IsRun(run) <==>
      || |run| == 1
      || (|run| > 1 && Last(run).collapseKey.Some? && Last(run).activityKind in {"tool.updated", "tool.completed"}
          && forall k | 0 <= k < |run| - 1 :: IsUpdateOf(run[k], Last(run).collapseKey.value))
    decreases |run|
  {
    if |run| > 1 {
      var front := Front(run);
      RunShape(front);
      assert Last(front) == run[|run| - 2];
      assert forall k | 0 <= k < |front| - 1 :: front[k] == run[k];
    }
  }

  /** The field given last: some entry has it and no later one does. */
  lemma {:induction false} LastGivenExactly(run: seq<Entry>, field: Entry -> Option<string>)
    ensures LastGiven(run, field) == None <==> forall k | 0 <= k < |run| :: field(run[k]) == None
    ensures LastGiven(run, field).Some? ==> exists k | 0 <= k < |run| ::
      field(run[k]) == LastGiven(run, field) && forall j | k < j < |run| :: field(run[j]) == None
    decreases |run|
  {
    if run != [] {
      var front := Front(run);
      LastGivenExactly(front, field);
      assert forall k | 0 <= k < |front| :: front[k] == run[k];
      if field(Last(run)).Some? {
        assert field(run[|run| - 1]) == LastGiven(run, field);
      } else if LastGiven(front, field).Some? {
        var k :| 0 <= k < |front| && field(front[k]) == LastGiven(front, field)
          && forall j | k < j < |front| :: field(front[j]) == None;
        assert field(run[k]) == LastGiven(run, field);
      }
    }
  }

  /** The list of distinct elements only grows at its end: each stands where it first occurred. */
  lemma {:induction false} DistinctGrows(s: seq<string>, more: seq<string>)
    ensures Distinct(s) <= Distinct(s + more)
    decreases |more|
  {
    if more == [] {
      assert s + more == s;
    } else {
      assert Front(s + more) == s + Front(more);
      DistinctGrows(s, Front(more));
    }
  }

  // ----- Collapsing in place -----------------------------------------------------------------

  lemma {:induction false} MergedAt(runs: seq<seq<Entry>>)
    requires AreRuns(runs)
    ensures |Merged(runs)| == |runs|
    ensures forall k | 0 <= k < |runs| :: runs[k] != [] && Merged(runs)[k] == MergedRun(runs[k])
    decreases |runs|
  {
    hide MergedRun, ShouldCollapse;
    if runs != [] {
      MergedAt(Front(runs));
    }
  }

  /** Overwriting the last slot does to the collapsed list what one more entry does to the runs. */
  lemma MergedExtended(runs: seq<seq<Entry>>, entry: Entry)
    requires AreRuns(runs) && AreRuns(Extended(runs, entry))
    ensures var collapsed := Merged(runs);
      Merged(Extended(runs, entry)) ==
        if collapsed != [] && ShouldCollapse(Last(collapsed), entry)
        then Front(collapsed) + [MergeDerivedWorkLogEntries(Last(collapsed), entry)]
        else collapsed + [entry]
  {
    hide MergeDerivedWorkLogEntries;
    var extended := Extended(runs, entry);
    if runs == [] {
      assert Front(extended) == [];
    } else {
      var last := Last(runs);
      MergedRunSays(last);
      if ShouldCollapse(Last(last), entry) {
        assert Front(extended) == Front(runs) && Last(extended) == last + [entry];
        assert Front(last + [entry]) == last;
        assert Front(Merged(runs)) == Merged(Front(runs));
      } else {
        assert Front(extended) == runs;
      }
    }
  }

  lemma CollapsedOneMore(entries: seq<Entry>, entry: Entry)
    ensures var collapsed := Collapsed(entries);
      Collapsed(entries + [entry]) ==
        if collapsed != [] && ShouldCollapse(Last(collapsed), entry)
        then Front(collapsed) + [MergeDerivedWorkLogEntries(Last(collapsed), entry)]
        else collapsed + [entry]
  {
    hide ShouldCollapse, AreRuns, Runs, Merged, Extended, MergeDerivedWorkLogEntries;
    RunsAreRuns(entries);
    RunsAreRuns(entries + [entry]);
    RunsOneMore(entries, entry);
    MergedExtended(Runs(entries), entry);
  }

  method CollapseDerivedWorkLogEntries(entries: seq<Entry>) returns (collapsed: seq<Entry>)
    ensures collapsed == Collapsed(entries)
  {
    collapsed := [];
    for i := 0 to |entries|
      invariant collapsed == Collapsed(entries[..i])
    {
      assert Front(entries[..i + 1]) == entries[..i] && Last(entries[..i + 1]) == entries[i];
      var entry := entries[i];
      CollapsedOneMore(entries[..i], entry);
      if collapsed != [] && ShouldCollapse(collapsed[|collapsed| - 1], entry) {
        collapsed := collapsed[|collapsed| - 1 := MergeDerivedWorkLogEntries(collapsed[|collapsed| - 1], entry)];
      } else {
        collapsed := collapsed + [entry];
      }
    }
    assert entries[..|entries|] == entries;
  }

  /** No two neighbours of the collapsed list could be collapsed, so collapsing again changes nothing. */
  lemma CollapsingTwice(entries: seq<Entry>)
    ensures var collapsed := Collapsed(entries);
      && (forall k | 0 <= k < |collapsed| - 1 :: !ShouldCollapse(collapsed[k], collapsed[k + 1]))
      && Collapsed(collapsed) == collapsed
  {
    RunsAreRuns(entries);
    MergedAt(Runs(entries));
    forall k | 0 <= k < |Collapsed(entries)| - 1
      ensures !ShouldCollapse(Collapsed(entries)[k], Collapsed(entries)[k + 1])
    {
      Neighbours(Runs(entries), k);
    }
    Settled(Collapsed(entries));
  }

  lemma Neighbours(runs: seq<seq<Entry>>, k: nat)
    requires AreRuns(runs) && k + 1 < |runs|
    ensures runs[k] != [] && runs[k + 1] != [] && !ShouldCollapse(MergedRun(runs[k]), MergedRun(runs[k + 1]))
  {
    RunAt(runs, k);
    RunAt(runs, k + 1);
    MergedRunSays(runs[k]);
    MergedRunSays(runs[k + 1]);
    RunEnds(runs[k + 1]);
  }

  lemma {:induction false} Settled(entries: seq<Entry>)
    requires forall k | 0 <= k < |entries| - 1 :: !ShouldCollapse(entries[k], entries[k + 1])
    ensures Collapsed(entries) == entries
    decreases |entries|
  {
    hide ShouldCollapse, Collapsed, MergeDerivedWorkLogEntries;
    if entries == [] {
      NothingCollapsed();
    } else {
      var front := Front(entries);
      forall k | 0 <= k < |front| - 1 ensures !ShouldCollapse(front[k], front[k + 1]) {
        assert !ShouldCollapse(entries[k], entries[k + 1]);
      }
      Settled(front);
      CollapsedOneMore(front, Last(entries));
      assert entries == front + [Last(entries)];
      if front != [] {
        assert Last(front) == entries[|entries| - 2] && Last(entries) == entries[|entries| - 2 + 1];
      }
    }
  }

  lemma NothingCollapsed()
    ensures Collapsed([]) == []
  {
  }

  // ----- The whole log ---------------------------------------------------------------------------

  predicate StartsWith(s: string, prefix: string) {
    prefix <= s
  }

  predicate IsPlanBoundaryToolActivity(activity: Activity) {
    && IsToolLifecycle(activity.kind)
    && activity.payload.detail.Some? && StartsWith(activity.payload.detail.value, "ExitPlanMode:")
  }

  predicate IsLogged(activity: Activity, latestTurnId: Option<string>) {
    && (latestTurnId.Some? && latestTurnId.value != "" ==> activity.turnId == latestTurnId)
    && activity.kind != "tool.started" && activity.kind != "task.started" && activity.kind != "task.completed"
    && activity.kind != "context-window.updated"
    && activity.summary != "Checkpoint captured"
    && !IsPlanBoundaryToolActivity(activity)
  }

  /** The activities that are logged, in order. */
  function Kept(ordered: seq<Activity>, latestTurnId: Option<string>): seq<Activity> {
    if ordered == [] then []
    else (if IsLogged(ordered[0], latestTurnId) then [ordered[0]] else []) + Kept(ordered[1..], latestTurnId)
  }

  function ToEntries(kept: seq<Activity>, toEntry: Activity -> Entry): seq<Entry> {
    seq(|kept|, i requires 0 <= i < |kept| => toEntry(kept[i]))
  }

  function WorkLogEntries(log: seq<Activity>, latestTurnId: Option<string>, toEntry: Activity -> Entry, collate: Collator)
    : seq<Entry>
  {
    Collapsed(ToEntries(Kept(Ordered(log, collate), latestTurnId), toEntry))
  }

  /** `kept` are the activities of the log that are logged, as often as they occur, and in order. */
  ghost predicate AreKept(log: seq<Activity>, latestTurnId: Option<string>, collate: Collator, kept: seq<Activity>) {
    && (forall a :: multiset(kept)[a] == if IsLogged(a, latestTurnId) then multiset(log)[a] else 0)
    && (forall i, j | 0 <= i < j < |kept| :: !Precedes(kept[j], kept[i], collate))
  }

  /** Kinds that are never logged. */
  const UNLOGGED_KINDS: set<string> := {"tool.started", "task.started", "task.completed", "context-window.updated"}

  ghost predicate LeavesPlanMode(a: Activity) {
    && a.kind in {"tool.updated", "tool.completed"}
    && exists rest: string :: a.payload.detail == Some("ExitPlanMode:" + rest)
  }

  /** Logged is what belongs to the turn asked for, if one is, and is neither bookkeeping nor the end of plan mode. */
  lemma IsLoggedExactly(a: Activity, latestTurnId: Option<string>)
    ensures IsLogged(a, latestTurnId) <==>
      && (latestTurnId == None || latestTurnId == Some("") || a.turnId == latestTurnId)
      && a.kind !in UNLOGGED_KINDS && a.summary != "Checkpoint captured" && !LeavesPlanMode(a)
  {
    if a.payload.detail.Some? {
      var detail := a.payload.detail.value;
      if StartsWith(detail, "ExitPlanMode:") {
        assert detail == "ExitPlanMode:" + detail[|"ExitPlanMode:"|..];
      }
    }
  }

  lemma {:induction false} KeptElements(ordered: seq<Activity>, latestTurnId: Option<string>)
    ensures forall a :: multiset(Kept(ordered, latestTurnId))[a] == if IsLogged(a, latestTurnId) then multiset(ordered)[a] else 0
  {
    hide IsLogged;
    if ordered != [] {
      KeptElements(ordered[1..], latestTurnId);
      assert ordered == [ordered[0]] + ordered[1..];
    }
  }

  lemma {:induction false} KeptSorted(ordered: seq<Activity>, latestTurnId: Option<string>, compare: (Activity, Activity) -> int)
    requires Sorted(ordered, compare)
    ensures Sorted(Kept(ordered, latestTurnId), compare)
    ensures forall a | a in Kept(ordered, latestTurnId) :: a in ordered
  {
    hide IsLogged;
    if ordered != [] {
      KeptSorted(ordered[1..], latestTurnId, compare);
      assert ordered == [ordered[0]] + ordered[1..];
      SortedBehind(ordered, Kept(ordered[1..], latestTurnId), compare);
    }
  }

  lemma SortedBehind(s: seq<Activity>, rest: seq<Activity>, compare: (Activity, Activity) -> int)
    requires s != [] && Sorted(s, compare) && Sorted(rest, compare)
    requires forall a | a in rest :: a in s[1..]
    ensures Sorted([s[0]] + rest, compare)
  {
    forall k | 0 <= k < |rest| ensures compare(s[0], rest[k]) <= 0 {
      assert rest[k] in s[1..];
      var i :| 0 <= i < |s| - 1 && s[1..][i] == rest[k];
      assert compare(s[0], s[i + 1]) <= 0;
    }
  }

  /**
   * The work log: the logged activities, in order, are turned into entries, these are cut into the
   * only runs there are, and each run gives one entry.
   */
  method DeriveWorkLogEntries(activities: seq<Activity>, latestTurnId: Option<string>, toEntry: Activity -> Entry,
                              collate: Collator)
    returns (entries: seq<Entry>, ghost kept: seq<Activity>, ghost runs: seq<seq<Entry>>)
    ensures TotalPreorder(collate) ==> AreKept(activities, latestTurnId, collate, kept)
    ensures Joined(runs) == ToEntries(kept, toEntry) && AreRuns(runs)
    ensures |entries| == |runs| && forall k | 0 <= k < |runs| :: runs[k] != [] && entries[k] == MergedRun(runs[k])
    ensures entries == WorkLogEntries(activities, latestTurnId, toEntry, collate)
  {
    var ordered := Ordered(activities, collate);
    kept := Kept(ordered, latestTurnId);
    KeptElements(ordered, latestTurnId);
    if TotalPreorder(collate) {
      OrderIsTotal(collate);
      ToSortedFacts(activities, ByOrder(collate));
      KeptSorted(ordered, latestTurnId, ByOrder(collate));
      forall i, j | 0 <= i < j < |kept| ensures !Precedes(kept[j], kept[i], collate) {
        OrderIsLexicographic(kept[j], kept[i], collate);
        Antisymmetric(kept[j], kept[i], collate);
        assert ByOrder(collate)(kept[i], kept[j]) <= 0;
      }
    }
    runs := Runs(ToEntries(kept, toEntry));
    RunsAreRuns(ToEntries(kept, toEntry));
    MergedAt(runs);
    entries := CollapseDerivedWorkLogEntries(ToEntries(Kept(ordered, latestTurnId), toEntry));
  }

  /** The work log is the same for every arrival order of the activities. */
  lemma ArrivalOrder(log: seq<Activity>, other: seq<Activity>, latestTurnId: Option<string>, toEntry: Activity -> Entry,
                     collate: Collator)
    requires TotalPreorder(collate) && IdsTellApart(log, collate) && multiset(log) == multiset(other)
    ensures WorkLogEntries(log, latestTurnId, toEntry, collate) == WorkLogEntries(other, latestTurnId, toEntry, collate)
  {
    ArrivalOrderIsIrrelevant(log, other, collate);
  }
}
