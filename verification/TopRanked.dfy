/**
 * Bounded top-k by binary insertion, for any comparison that is a total preorder, proved to
 * keep exactly the first elements of the stable sort.
 */
module TopRanked {

  /** compare(a, b) is negative, zero or positive as a goes before, with or after b. */
  ghost predicate TotalPreorder<T(!new)>(compare: (T, T) -> int) {
    && (forall a, b :: compare(a, b) < 0 <==> compare(b, a) > 0)
    && (forall a, b, c :: compare(a, b) <= 0 && compare(b, c) <= 0 ==> compare(a, c) <= 0)
  }

  predicate Sorted<T>(s: seq<T>, compare: (T, T) -> int) {
    forall i, j | 0 <= i < j < |s| :: compare(s[i], s[j]) <= 0
  }

  /** In a stable sort of `all`, index i comes before index j. */
  predicate Before<T>(all: seq<T>, i: nat, j: nat, compare: (T, T) -> int)
    requires i < |all| && j < |all|
  {
    compare(all[i], all[j]) < 0 || (compare(all[i], all[j]) == 0 && i < j)
  }

  predicate Indices<T>(all: seq<T>, p: seq<nat>) {
    forall k | 0 <= k < |p| :: p[k] < |all|
  }

  predicate InOrder<T>(all: seq<T>, p: seq<nat>, compare: (T, T) -> int)
    requires Indices(all, p)
  {
    forall a, b | 0 <= a < b < |p| :: Before(all, p[a], p[b], compare)
  }

  /** `sorted` is the stable sort of `all`; p[k] is where its k-th element comes from. */
  predicate StableSort<T(==)>(all: seq<T>, sorted: seq<T>, p: seq<nat>, compare: (T, T) -> int) {
    && |p| == |sorted| && Indices(all, p) && InOrder(all, p, compare)
    && (forall i | 0 <= i < |all| :: i in p)
    && (forall k | 0 <= k < |p| :: sorted[k] == all[p[k]])
  }

  function AtMost(limit: int, n: nat): nat {
    if limit <= 0 then 0 else if limit < n then limit else n
  }

  /** `kept` are the first `limit` of `all`; everything left out comes after all of them. */
  predicate Selection<T(==)>(all: seq<T>, kept: seq<T>, limit: int, p: seq<nat>, compare: (T, T) -> int) {
    && |p| == |kept| == AtMost(limit, |all|) && Indices(all, p) && InOrder(all, p, compare)
    && (limit >= |all| ==> forall i | 0 <= i < |all| :: i in p)
    && (forall i, k | 0 <= i < |all| && i !in p && 0 <= k < |p| :: Before(all, p[k], i, compare))
    && (forall k | 0 <= k < |p| :: kept[k] == all[p[k]])
  }

  /** Whatever the stable sort is, a selection is its prefix. */
  lemma SelectionIsPrefix<T(!new)>(all: seq<T>, kept: seq<T>, limit: int, p: seq<nat>, sorted: seq<T>, q: seq<nat>,
                             compare: (T, T) -> int)
    requires TotalPreorder(compare) && Selection(all, kept, limit, p, compare) && StableSort(all, sorted, q, compare)
    ensures kept <= sorted
  {
    forall k | 0 <= k < |p| && k < |q| ensures p[k] == q[k] {
      SameIndex(all, kept, limit, p, sorted, q, compare, k);
    }
    forall k | 0 <= k < |p| ensures forall j | 0 <= j < k :: p[j] != p[k] {
      Distinct(all, p, k, compare);
    }
    if |q| < |p| {
      var m := IndexIn(q, p[|q|]);
    }
  }

  lemma IndexIn(q: seq<nat>, i: nat) returns (m: nat)
    requires i in q
    ensures m < |q| && q[m] == i
  {
    m :| 0 <= m < |q| && q[m] == i;
  }

  lemma {:induction false} SameIndex<T(!new)>(all: seq<T>, kept: seq<T>, limit: int, p: seq<nat>, sorted: seq<T>,
                                        q: seq<nat>, compare: (T, T) -> int, k: nat)
    requires TotalPreorder(compare) && Selection(all, kept, limit, p, compare) && StableSort(all, sorted, q, compare)
    requires k < |p| && k < |q|
    ensures p[k] == q[k]
    decreases k
  {
    forall j | 0 <= j < k ensures p[j] == q[j] {
      SameIndex(all, kept, limit, p, sorted, q, compare, j);
    }
    Distinct(all, p, k, compare);
    Distinct(all, q, k, compare);
    KeptFirst(all, kept, limit, p, compare, k, q[k]);
    SortedFirst(all, sorted, q, compare, k, p[k]);
    Asymmetric(all, p[k], q[k], compare);
  }

  lemma Asymmetric<T(!new)>(all: seq<T>, i: nat, j: nat, compare: (T, T) -> int)
    requires TotalPreorder(compare) && i < |all| && j < |all|
    ensures !(Before(all, i, j, compare) && Before(all, j, i, compare))
  {
  }

  lemma Distinct<T(!new)>(all: seq<T>, p: seq<nat>, k: nat, compare: (T, T) -> int)
    requires TotalPreorder(compare) && Indices(all, p) && InOrder(all, p, compare) && k < |p|
    ensures forall j | 0 <= j < k :: p[j] != p[k]
  {
  }

  /** The k-th kept element comes first among those not kept before it. */
  lemma KeptFirst<T>(all: seq<T>, kept: seq<T>, limit: int, p: seq<nat>, compare: (T, T) -> int, k: nat, i: nat)
    requires Selection(all, kept, limit, p, compare) && k < |p| && i < |all| && forall j | 0 <= j < k :: p[j] != i
    ensures i == p[k] || Before(all, p[k], i, compare)
  {
    if i in p {
      var n :| 0 <= n < |p| && p[n] == i;
      assert n >= k;
    }
  }

  lemma SortedFirst<T>(all: seq<T>, sorted: seq<T>, q: seq<nat>, compare: (T, T) -> int, k: nat, i: nat)
    requires StableSort(all, sorted, q, compare) && k < |q| && i < |all| && forall j | 0 <= j < k :: q[j] != i
    ensures i == q[k] || Before(all, q[k], i, compare)
  {
    assert i in q;
    var n :| 0 <= n < |q| && q[n] == i;
    assert n >= k;
  }

  /** The list searchWorkspaceEntries builds. */
  class RankedList<T(!new, ==)> {
    var entries: seq<T>
    const compare: (T, T) -> int

    constructor (compare: (T, T) -> int)
      ensures entries == [] && this.compare == compare
    {
      entries := [];
      this.compare := compare;
    }

    /** Binary search for the position after every entry that does not go behind the candidate. */
    method FindInsertionIndex(candidate: T) returns (low: nat)
      requires TotalPreorder(compare) && Sorted(entries, compare)
      ensures low <= |entries|
      ensures forall i | 0 <= i < low :: compare(entries[i], candidate) <= 0
      ensures forall i | low <= i < |entries| :: compare(candidate, entries[i]) < 0
    {
      low := 0;
      var high := |entries|;
      while low < high
        invariant low <= high <= |entries|
        invariant forall i | 0 <= i < low :: compare(entries[i], candidate) <= 0
        invariant forall i | high <= i < |entries| :: compare(candidate, entries[i]) < 0
      {
        var middle := low + (high - low) / 2;
        var current := entries[middle];
        if compare(candidate, current) < 0 {
          high := middle;
        } else {
          low := middle + 1;
        }
      }
    }

    /** Inserts the next element and keeps the selection of all elements offered so far. */
    method Insert(candidate: T, limit: int, ghost all: seq<T>, ghost p: seq<nat>) returns (ghost q: seq<nat>)
      requires TotalPreorder(compare) && Selection(all, entries, limit, p, compare)
      modifies this`entries
      ensures Selection(all + [candidate], entries, limit, q, compare)
    {
      if limit <= 0 {
        return [];
      }
      SelectionSorted(all, entries, limit, p, compare);
      var insertionIndex := FindInsertionIndex(candidate);
      if |entries| < limit {
        Grown(all, entries, limit, p, compare, candidate, insertionIndex);
        entries := entries[..insertionIndex] + [candidate] + entries[insertionIndex..];
        return Wide(all, p, insertionIndex);
      }
      if insertionIndex >= limit {
        Skipped(all, entries, limit, p, compare, candidate, insertionIndex);
        return p;
      }
      Shifted(all, entries, limit, p, compare, candidate, insertionIndex);
      entries := entries[..insertionIndex] + [candidate] + entries[insertionIndex..];
      entries := entries[..|entries| - 1];
      return Wide(all, p, insertionIndex)[..limit];
    }
  }

  lemma SelectionSorted<T>(all: seq<T>, kept: seq<T>, limit: int, p: seq<nat>, compare: (T, T) -> int)
    requires Selection(all, kept, limit, p, compare)
    ensures Sorted(kept, compare)
  {
  }

  /** The index of the next element, put in at position `at`. */
  function Wide<T>(all: seq<T>, p: seq<nat>, at: nat): seq<nat>
    requires at <= |p|
  {
    p[..at] + [|all|] + p[at..]
  }

  predicate InsertsAt<T>(kept: seq<T>, candidate: T, at: nat, compare: (T, T) -> int) {
    && at <= |kept|
    && (forall i | 0 <= i < at :: compare(kept[i], candidate) <= 0)
    && (forall i | at <= i < |kept| :: compare(candidate, kept[i]) < 0)
  }

  lemma WidePair<T(!new)>(all: seq<T>, kept: seq<T>, limit: int, p: seq<nat>, compare: (T, T) -> int,
                          candidate: T, at: nat, a: nat, b: nat)
    requires TotalPreorder(compare) && Selection(all, kept, limit, p, compare) && InsertsAt(kept, candidate, at, compare)
    requires a < b < |Wide(all, p, at)|
    ensures var wide := Wide(all, p, at);
      wide[a] <= |all| && wide[b] <= |all| && Before(all + [candidate], wide[a], wide[b], compare)
  {
  }

  lemma InsertedInOrder<T(!new)>(all: seq<T>, kept: seq<T>, limit: int, p: seq<nat>, compare: (T, T) -> int,
                                 candidate: T, at: nat)
    requires TotalPreorder(compare) && Selection(all, kept, limit, p, compare) && InsertsAt(kept, candidate, at, compare)
    ensures Indices(all + [candidate], Wide(all, p, at)) && InOrder(all + [candidate], Wide(all, p, at), compare)
    ensures Indices(all + [candidate], p) && InOrder(all + [candidate], p, compare)
  {
    var more, wide := all + [candidate], Wide(all, p, at);
    assert Indices(more, wide);
    forall a, b | 0 <= a < b < |wide| ensures Before(more, wide[a], wide[b], compare) {
      WidePair(all, kept, limit, p, compare, candidate, at, a, b);
    }
    forall a, b | 0 <= a < b < |p| ensures Before(more, p[a], p[b], compare) {
      assert Before(all, p[a], p[b], compare);
    }
  }

  lemma WideValues<T>(all: seq<T>, kept: seq<T>, p: seq<nat>, candidate: T, at: nat)
    requires |p| == |kept| && at <= |p| && Indices(all, p) && forall k | 0 <= k < |p| :: kept[k] == all[p[k]]
    ensures var wide, entries := Wide(all, p, at), kept[..at] + [candidate] + kept[at..];
      |wide| == |entries| && forall k | 0 <= k < |wide| :: wide[k] <= |all| && entries[k] == (all + [candidate])[wide[k]]
  {
  }

  lemma Grown<T(!new)>(all: seq<T>, kept: seq<T>, limit: int, p: seq<nat>, compare: (T, T) -> int, candidate: T, at: nat)
    requires TotalPreorder(compare) && Selection(all, kept, limit, p, compare) && InsertsAt(kept, candidate, at, compare)
    requires |kept| < limit
    ensures Selection(all + [candidate], kept[..at] + [candidate] + kept[at..], limit, Wide(all, p, at), compare)
  {
    InsertedInOrder(all, kept, limit, p, compare, candidate, at);
    WideValues(all, kept, p, candidate, at);
    var wide := Wide(all, p, at);
    forall i | 0 <= i < |all + [candidate]| ensures i in wide {
      if i < |all| {
        assert i in p && p == p[..at] + p[at..];
      } else {
        assert wide[at] == i;
      }
    }
  }

  lemma Skipped<T(!new)>(all: seq<T>, kept: seq<T>, limit: int, p: seq<nat>, compare: (T, T) -> int, candidate: T, at: nat)
    requires TotalPreorder(compare) && Selection(all, kept, limit, p, compare) && InsertsAt(kept, candidate, at, compare)
    requires 0 < limit <= at
    ensures Selection(all + [candidate], kept, limit, p, compare)
  {
  }

  lemma Shifted<T(!new)>(all: seq<T>, kept: seq<T>, limit: int, p: seq<nat>, compare: (T, T) -> int, candidate: T, at: nat)
    requires TotalPreorder(compare) && Selection(all, kept, limit, p, compare) && InsertsAt(kept, candidate, at, compare)
    requires at < limit == |kept|
    ensures Selection(all + [candidate], (kept[..at] + [candidate] + kept[at..])[..limit], limit,
                      Wide(all, p, at)[..limit], compare)
  {
    InsertedInOrder(all, kept, limit, p, compare, candidate, at);
    var more, wide := all + [candidate], Wide(all, p, at);
    var q := wide[..limit];
    WideValues(all, kept, p, candidate, at);
    assert InOrder(more, q, compare) by {
      assert forall a, b | 0 <= a < b < |q| :: Before(more, wide[a], wide[b], compare);
    }
    forall i, k | 0 <= i < |more| && i !in q && 0 <= k < |q| ensures Before(more, q[k], i, compare) {
      assert Before(more, wide[k], wide[limit], compare);
      DroppedBeforeRest(all, kept, limit, p, compare, candidate, at, i);
      if i != wide[limit] {
        BeforeTransitive(more, wide[k], wide[limit], i, compare);
      }
    }
  }

  lemma DroppedBeforeRest<T(!new)>(all: seq<T>, kept: seq<T>, limit: int, p: seq<nat>, compare: (T, T) -> int,
                                   candidate: T, at: nat, i: nat)
    requires Selection(all, kept, limit, p, compare) && at < limit == |kept| && i <= |all|
    requires i !in Wide(all, p, at)[..limit]
    ensures i == Wide(all, p, at)[limit] || Before(all + [candidate], Wide(all, p, at)[limit], i, compare)
  {
    var wide := Wide(all, p, at);
    assert wide[at] == |all| && wide[..limit][at] == |all|;
    assert wide == wide[..limit] + [wide[limit]] && wide[limit] == p[limit - 1];
    if i != wide[limit] {
      assert i !in wide && p == p[..at] + p[at..] && i !in p;
      assert Before(all, p[limit - 1], i, compare);
    }
  }

  lemma BeforeTransitive<T(!new)>(all: seq<T>, i: nat, j: nat, k: nat, compare: (T, T) -> int)
    requires TotalPreorder(compare) && i < |all| && j < |all| && k < |all|
    requires Before(all, i, j, compare) && Before(all, j, k, compare)
    ensures Before(all, i, k, compare)
  {
  }

  // ----- Stable sorts exist ----------------------------------------------------------

  lemma {:induction false} InsertionPoint<T(!new)>(kept: seq<T>, candidate: T, compare: (T, T) -> int) returns (at: nat)
    requires TotalPreorder(compare) && Sorted(kept, compare)
    ensures InsertsAt(kept, candidate, at, compare)
  {
    at := |kept|;
    while at > 0 && compare(candidate, kept[at - 1]) < 0
      invariant at <= |kept|
      invariant forall i | at <= i < |kept| :: compare(candidate, kept[i]) < 0
    {
      at := at - 1;
    }
    if at > 0 {
      assert compare(kept[at - 1], candidate) <= 0;
      assert forall i | 0 <= i < at - 1 :: compare(kept[i], kept[at - 1]) <= 0;
    }
  }

  lemma {:induction false} StableSortExists<T(!new)>(all: seq<T>, limit: nat, compare: (T, T) -> int)
    returns (sorted: seq<T>, p: seq<nat>)
    requires TotalPreorder(compare) && |all| <= limit
    ensures Selection(all, sorted, limit, p, compare) && StableSort(all, sorted, p, compare)
  {
    if all == [] {
      return [], [];
    }
    var front, candidate := all[..|all| - 1], all[|all| - 1];
    var kept, q := StableSortExists(front, limit, compare);
    SelectionSorted(front, kept, limit, q, compare);
    var at := InsertionPoint(kept, candidate, compare);
    Grown(front, kept, limit, q, compare, candidate, at);
    assert front + [candidate] == all;
    sorted, p := kept[..at] + [candidate] + kept[at..], Wide(front, q, at);
  }
}
