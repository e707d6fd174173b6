/**
 * The order in which derived views read a thread's activities. Sequence numbers are optional
 * and arrival order is not to be trusted, so every view sorts first.
 */
module ActivityOrder {
  import opened Wrappers
  import opened Sequences
  import opened TopRanked

  datatype RawOption = RawOption(name: Option<string>, description: Option<string>)

  datatype RawQuestion = RawQuestion(id: Option<string>, header: Option<string>, question: Option<string>,
                                     options: Option<seq<RawOption>>)

  /** The fields of an activity's payload that the views read; None when absent or of another type. */
  datatype Payload = Payload(requestId: Option<string>, requestKind: Option<string>, requestType: Option<string>,
                             detail: Option<string>, questions: Option<seq<RawQuestion>>)

  datatype Activity = Activity(id: string, createdAt: string, kind: string, summary: string,
                               sequence: Option<int>, turnId: Option<string>, payload: Payload)

  /** localeCompare; the views only need a total preorder. */
  type Collator = (string, string) -> int

  predicate EndsWith(s: string, suffix: string) {
    |suffix| <= |s| && s[|s| - |suffix|..] == suffix
  }

  function CompareActivityLifecycleRank(kind: string): int {
    if EndsWith(kind, ".started") || kind == "tool.started" then 0
    else if EndsWith(kind, ".progress") || EndsWith(kind, ".updated") then 1
    else if EndsWith(kind, ".completed") || EndsWith(kind, ".resolved") then 2
    else 1
  }

  function CompareActivitiesByOrder(left: Activity, right: Activity, collate: Collator): int {
    if left.sequence.Some? && right.sequence.Some? && left.sequence.value != right.sequence.value then
      left.sequence.value - right.sequence.value
    else if left.sequence.Some? && right.sequence.None? then 1
    else if left.sequence.None? && right.sequence.Some? then -1
    else if collate(left.createdAt, right.createdAt) != 0 then collate(left.createdAt, right.createdAt)
    else
      var rank := CompareActivityLifecycleRank(left.kind) - CompareActivityLifecycleRank(right.kind);
      if rank != 0 then rank else collate(left.id, right.id)
  }

  function ByOrder(collate: Collator): (Activity, Activity) -> int {
    (left: Activity, right: Activity) => CompareActivitiesByOrder(left, right, collate)
  }

  /** Distinct activities of the log have ids that localeCompare tells apart. */
  ghost predicate IdsTellApart(log: seq<Activity>, collate: Collator) {
    forall a, b | a in log && b in log && a != b :: collate(a.id, b.id) != 0
  }

  // ----- Which order it is ----------------------------------------------------------------

  ghost predicate EndsIn(kind: string, ending: string) {
    exists stem: string :: kind == stem + ending
  }

  ghost predicate Starts(kind: string) { EndsIn(kind, ".started") }

  ghost predicate Finishes(kind: string) { EndsIn(kind, ".completed") || EndsIn(kind, ".resolved") }

  /** A start precedes everything else, and everything else precedes what finishes. */
  ghost predicate PhasePrecedes(kind: string, other: string) {
    (Starts(kind) && !Starts(other)) || (!Finishes(kind) && Finishes(other))
  }

  predicate SequencePrecedes(sequence: Option<int>, other: Option<int>) {
    other.Some? && (sequence.None? || sequence.value < other.value)
  }

  /** Unsequenced before sequenced, then by sequence, time, phase and id. */
  ghost predicate Precedes(a: Activity, b: Activity, collate: Collator) {
    || SequencePrecedes(a.sequence, b.sequence)
    || (a.sequence == b.sequence &&
        (|| collate(a.createdAt, b.createdAt) < 0
         || (collate(a.createdAt, b.createdAt) == 0 &&
             (|| PhasePrecedes(a.kind, b.kind)
              || (!PhasePrecedes(b.kind, a.kind) && collate(a.id, b.id) < 0)))))
  }

  lemma EndsInExactly(kind: string, ending: string)
    ensures EndsIn(kind, ending) <==> EndsWith(kind, ending)
  {
    if EndsWith(kind, ending) {
      assert kind == kind[..|kind| - |ending|] + ending;
    }
  }

  lemma LastChar(kind: string, ending: string, k: nat)
    requires EndsWith(kind, ending) && k < |ending|
    ensures kind[|kind| - |ending| + k] == ending[k]
  {
    assert kind[|kind| - |ending|..][k] == ending[k];
  }

  /** No two of the endings an activity's kind is told by fit the same kind. */
  lemma EndingsApart(kind: string, ending: string, other: string)
    requires EndsWith(kind, ending) && EndsWith(kind, other)
    requires ending != "" && other != "" && |ending| <= |other|
    ensures ending == other[|other| - |ending|..]
  {
    forall k | 0 <= k < |ending| ensures ending[k] == other[|other| - |ending|..][k] {
      LastChar(kind, ending, k);
      LastChar(kind, other, |other| - |ending| + k);
    }
  }

  lemma EndingsDiffer(kind: string)
    ensures !(EndsWith(kind, ".started") && (EndsWith(kind, ".completed") || EndsWith(kind, ".resolved")))
    ensures !(EndsWith(kind, ".progress") && (EndsWith(kind, ".completed") || EndsWith(kind, ".resolved")))
    ensures !(EndsWith(kind, ".updated") && (EndsWith(kind, ".completed") || EndsWith(kind, ".resolved")))
  {
    hide EndsWith;
    if EndsWith(kind, ".started") && EndsWith(kind, ".completed") { EndingsApart(kind, ".started", ".completed"); }
    if EndsWith(kind, ".started") && EndsWith(kind, ".resolved") { EndingsApart(kind, ".started", ".resolved"); }
    if EndsWith(kind, ".progress") && EndsWith(kind, ".completed") { EndingsApart(kind, ".progress", ".completed"); }
    if EndsWith(kind, ".progress") && EndsWith(kind, ".resolved") { EndingsApart(kind, ".progress", ".resolved"); }
    if EndsWith(kind, ".updated") && EndsWith(kind, ".completed") { EndingsApart(kind, ".updated", ".completed"); }
    if EndsWith(kind, ".updated") && EndsWith(kind, ".resolved") { EndingsApart(kind, ".updated", ".resolved"); }
  }

  lemma RankExactly(kind: string)
    ensures CompareActivityLifecycleRank(kind) == if Starts(kind) then 0 else if Finishes(kind) then 2 else 1
    ensures !(Starts(kind) && Finishes(kind))
  {
    hide EndsWith, EndsIn;
    EndsInExactly(kind, ".started");
    EndsInExactly(kind, ".completed");
    EndsInExactly(kind, ".resolved");
    EndingsDiffer(kind);
    if kind == "tool.started" {
      ToolStarted();
    }
  }

  lemma ToolStarted()
    ensures EndsWith("tool.started", ".started")
  {
    assert "tool.started" == "tool" + ".started";
  }

  /** The comparison orders activities by sequence, time, phase and id. */
  lemma OrderIsLexicographic(a: Activity, b: Activity, collate: Collator)
    ensures CompareActivitiesByOrder(a, b, collate) < 0 <==> Precedes(a, b, collate)
  {
    hide CompareActivityLifecycleRank, Starts, Finishes;
    RankExactly(a.kind);
    RankExactly(b.kind);
  }

  /** It is a total preorder that tells different ids apart. */
  lemma OrderIsTotal(collate: Collator)
    requires TotalPreorder(collate)
    ensures TotalPreorder(ByOrder(collate))
    ensures forall a, b :: ByOrder(collate)(a, b) == 0 ==> collate(a.id, b.id) == 0
  {
    forall a, b ensures ByOrder(collate)(a, b) < 0 <==> ByOrder(collate)(b, a) > 0 {
      Antisymmetric(a, b, collate);
    }
    forall a, b, c | ByOrder(collate)(a, b) <= 0 && ByOrder(collate)(b, c) <= 0 ensures ByOrder(collate)(a, c) <= 0 {
      Transitive(a, b, c, collate);
    }
  }

  lemma Antisymmetric(a: Activity, b: Activity, collate: Collator)
    requires TotalPreorder(collate)
    ensures CompareActivitiesByOrder(a, b, collate) < 0 <==> CompareActivitiesByOrder(b, a, collate) > 0
  {
  }

  lemma Transitive(a: Activity, b: Activity, c: Activity, collate: Collator)
    requires TotalPreorder(collate)
    requires CompareActivitiesByOrder(a, b, collate) <= 0 && CompareActivitiesByOrder(b, c, collate) <= 0
    ensures CompareActivitiesByOrder(a, c, collate) <= 0
  {
  }

  // ----- Sorting ------------------------------------------------------------------------

  /** `x` after everything in `s` that does not come after it. */
  function Inserted<T>(s: seq<T>, x: T, compare: (T, T) -> int): seq<T>
    decreases |s|
  {
    if s == [] || compare(Last(s), x) <= 0 then s + [x] else Inserted(Front(s), x, compare) + [Last(s)]
  }

  /** Array.prototype.toSorted, a stable sort. */
  function ToSorted<T>(s: seq<T>, compare: (T, T) -> int): seq<T>
    decreases |s|
  {
    if s == [] then [] else Inserted(ToSorted(Front(s), compare), Last(s), compare)
  }

  lemma {:induction false} InsertedElements<T>(s: seq<T>, x: T, compare: (T, T) -> int)
    ensures multiset(Inserted(s, x, compare)) == multiset(s) + multiset{x}
    decreases |s|
  {
    if s != [] && compare(Last(s), x) > 0 {
      InsertedElements(Front(s), x, compare);
      assert s == Front(s) + [Last(s)];
    }
  }

  lemma {:induction false} InsertedSorted<T(!new)>(s: seq<T>, x: T, compare: (T, T) -> int)
    requires TotalPreorder(compare) && Sorted(s, compare)
    ensures Sorted(Inserted(s, x, compare), compare)
    decreases |s|
  {
    if s != [] {
      if compare(Last(s), x) <= 0 {
        forall y | y in s ensures compare(y, x) <= 0 {
          Greatest(s, y, compare);
        }
        AppendedSorted(s, x, compare);
      } else {
        var rest := Inserted(Front(s), x, compare);
        InsertedSorted(Front(s), x, compare);
        InsertedElements(Front(s), x, compare);
        assert compare(Last(s), x) > 0 <==> compare(x, Last(s)) < 0;
        forall y | y in rest ensures compare(y, Last(s)) <= 0 {
          assert y in multiset(rest);
          assert y in Front(s) || y == x;
          if y in Front(s) {
            Greatest(s, y, compare);
          }
        }
        AppendedSorted(rest, Last(s), compare);
      }
    }
  }

  lemma AppendedSorted<T>(s: seq<T>, x: T, compare: (T, T) -> int)
    requires Sorted(s, compare) && forall y | y in s :: compare(y, x) <= 0
    ensures Sorted(s + [x], compare)
  {
  }

  lemma NothingSorted<T>(compare: (T, T) -> int)
    ensures Sorted([], compare)
  {
  }

  lemma {:induction false} ToSortedFacts<T(!new)>(s: seq<T>, compare: (T, T) -> int)
    requires TotalPreorder(compare)
    ensures Sorted(ToSorted(s, compare), compare) && multiset(ToSorted(s, compare)) == multiset(s)
    decreases |s|
  {
    hide Sorted, TotalPreorder, Inserted;
    if s == [] {
      NothingSorted(compare);
    } else {
      ToSortedFacts(Front(s), compare);
      InsertedSorted(ToSorted(Front(s), compare), Last(s), compare);
      InsertedElements(ToSorted(Front(s), compare), Last(s), compare);
      assert s == Front(s) + [Last(s)];
    }
  }

  /** The elements of `s` that `compare` does not tell from `x`, in order. */
  function Ties<T>(s: seq<T>, x: T, compare: (T, T) -> int): seq<T>
    decreases |s|
  {
    if s == [] then [] else Ties(Front(s), x, compare) + if compare(Last(s), x) == 0 then [Last(s)] else []
  }

  lemma TiesOneMore<T>(s: seq<T>, y: T, x: T, compare: (T, T) -> int)
    ensures Ties(s + [y], x, compare) == Ties(s, x, compare) + if compare(y, x) == 0 then [y] else []
  {
    assert Front(s + [y]) == s;
  }

  lemma {:induction false} InsertedStable<T(!new)>(s: seq<T>, y: T, x: T, compare: (T, T) -> int)
    requires TotalPreorder(compare)
    ensures Ties(Inserted(s, y, compare), x, compare) == Ties(s + [y], x, compare)
    decreases |s|
  {
    hide Ties;
    TiesOneMore(s, y, x, compare);
    if s != [] && compare(Last(s), y) > 0 {
      var front, last := Front(s), Last(s);
      assert s == front + [last];
      InsertedStable(front, y, x, compare);
      TiesOneMore(front, y, x, compare);
      TiesOneMore(front, last, x, compare);
      TiesOneMore(Inserted(front, y, compare), last, x, compare);
      assert !(compare(last, x) == 0 && compare(y, x) == 0) by {
        assert compare(x, y) < 0 <==> compare(y, x) > 0;
      }
    }
  }

  /** The sort keeps the order of elements that compare equal. */
  lemma {:induction false} ToSortedStable<T(!new)>(s: seq<T>, x: T, compare: (T, T) -> int)
    requires TotalPreorder(compare)
    ensures Ties(ToSorted(s, compare), x, compare) == Ties(s, x, compare)
    decreases |s|
  {
    hide Ties, TotalPreorder, Inserted;
    if s != [] {
      ToSortedStable(Front(s), x, compare);
      InsertedStable(ToSorted(Front(s), compare), Last(s), x, compare);
      TiesOneMore(ToSorted(Front(s), compare), Last(s), x, compare);
      TiesOneMore(Front(s), Last(s), x, compare);
      assert s == Front(s) + [Last(s)];
    }
  }

  /** The order tells the elements of `log` apart. */
  ghost predicate Strict<T(!new)>(log: seq<T>, compare: (T, T) -> int) {
    forall x, y | x in log && y in log && compare(x, y) == 0 :: x == y
  }

  lemma FrontFacts<T(!new)>(s: seq<T>, compare: (T, T) -> int)
    requires s != [] && Sorted(s, compare) && Strict(s, compare)
    ensures Sorted(Front(s), compare) && Strict(Front(s), compare)
    ensures multiset(s) == multiset(Front(s)) + multiset{Last(s)} && s == Front(s) + [Last(s)]
  {
    assert s == Front(s) + [Last(s)];
  }

  /** When the order tells elements apart there is only one way to sort them. */
  lemma {:induction false} SortedOnce<T(!new)>(a: seq<T>, b: seq<T>, compare: (T, T) -> int)
    requires TotalPreorder(compare) && Sorted(a, compare) && Sorted(b, compare) && multiset(a) == multiset(b)
    requires Strict(a, compare) && Strict(b, compare) && |a| == |b|
    ensures a == b
    decreases |a|
  {
    if a != [] {
      SameLast(a, b, compare);
      FrontFacts(a, compare);
      FrontFacts(b, compare);
      Cancelled(multiset(Front(a)), multiset(Front(b)), Last(a));
      SortedOnce(Front(a), Front(b), compare);
    }
  }

  lemma Cancelled<T>(a: multiset<T>, b: multiset<T>, x: T)
    requires a + multiset{x} == b + multiset{x}
    ensures a == b
  {
    assert a + multiset{x} - multiset{x} == a && b + multiset{x} - multiset{x} == b;
  }

  lemma SameLast<T(!new)>(a: seq<T>, b: seq<T>, compare: (T, T) -> int)
    requires TotalPreorder(compare) && Sorted(a, compare) && Sorted(b, compare) && multiset(a) == multiset(b)
    requires Strict(a, compare) && a != [] && b != []
    ensures Last(a) == Last(b)
  {
    var x, y := Last(a), Last(b);
    assert x in multiset(a) && y in multiset(b);
    assert x in b && y in a;
    Greatest(a, y, compare);
    Greatest(b, x, compare);
    assert compare(x, y) < 0 <==> compare(y, x) > 0;
  }

  lemma Greatest<T(!new)>(s: seq<T>, x: T, compare: (T, T) -> int)
    requires TotalPreorder(compare) && Sorted(s, compare) && s != [] && x in s
    ensures compare(x, Last(s)) <= 0
  {
  }

  function Ordered(log: seq<Activity>, collate: Collator): seq<Activity> {
    ToSorted(log, ByOrder(collate))
  }

  /** Whatever order the log arrives in, it is read in the same order. */
  lemma ArrivalOrderIsIrrelevant(log: seq<Activity>, other: seq<Activity>, collate: Collator)
    requires TotalPreorder(collate) && IdsTellApart(log, collate) && multiset(log) == multiset(other)
    ensures Ordered(log, collate) == Ordered(other, collate)
  {
    hide CompareActivitiesByOrder, ToSorted;
    var compare := ByOrder(collate);
    OrderIsTotal(collate);
    ToSortedFacts(log, compare);
    ToSortedFacts(other, compare);
    assert forall a :: a in other <==> a in multiset(other);
    OrderedIsStrict(log, collate);
    OrderedIsStrict(other, collate);
    assert |Ordered(log, collate)| == |multiset(Ordered(log, collate))|;
    assert |Ordered(other, collate)| == |multiset(Ordered(other, collate))|;
    SortedOnce(Ordered(log, collate), Ordered(other, collate), compare);
  }

  lemma OrderedIsStrict(log: seq<Activity>, collate: Collator)
    requires TotalPreorder(collate) && IdsTellApart(log, collate)
    ensures Strict(Ordered(log, collate), ByOrder(collate))
    ensures forall a :: a in Ordered(log, collate) <==> a in log
  {
    OrderIsTotal(collate);
    ToSortedFacts(log, ByOrder(collate));
    forall a ensures a in Ordered(log, collate) <==> a in log {
      assert a in multiset(log) <==> a in multiset(Ordered(log, collate));
    }
  }

  /** In the order the log is read, one activity stands before another exactly when it compares less. */
  lemma OrderedPositions(log: seq<Activity>, collate: Collator, i: nat, j: nat)
    requires TotalPreorder(collate) && IdsTellApart(log, collate)
    requires i < |Ordered(log, collate)| && j < |Ordered(log, collate)|
    ensures var ordered := Ordered(log, collate);
      && ordered[i] in log
      && (CompareActivitiesByOrder(ordered[i], ordered[j], collate) < 0 ==> i < j)
      && (i < j ==> ordered[i] == ordered[j] || CompareActivitiesByOrder(ordered[i], ordered[j], collate) < 0)
  {
    var compare, ordered := ByOrder(collate), Ordered(log, collate);
    OrderIsTotal(collate);
    ToSortedFacts(log, compare);
    assert ordered[i] in multiset(log) && ordered[j] in multiset(log);
    assert compare(ordered[i], ordered[j]) < 0 <==> compare(ordered[j], ordered[i]) > 0;
    if i < j {
      assert compare(ordered[i], ordered[j]) <= 0;
    } else if j < i {
      assert compare(ordered[j], ordered[i]) <= 0;
    }
    assert compare(ordered[i], ordered[i]) < 0 <==> compare(ordered[i], ordered[i]) > 0;
  }
}
