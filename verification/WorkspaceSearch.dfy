/**
 * Workspace search: the greedy subsequence score, the score of an entry, and the search loop,
 * whose result is the beginning of the stable sort of everything that matches.
 */
module WorkspaceSearch {
  import opened Wrappers
  import opened Sequences
  import opened Text
  import opened TopRanked

  // ----- Subsequences -------------------------------------------------------------

  /** `query` can be obtained from `value` by leaving characters out. */
  predicate Subsequence(query: string, value: string)
    decreases |value|
  {
    query == "" || (value != "" &&
      (Subsequence(query, Front(value))
       || (value[|value| - 1] == query[|query| - 1] && Subsequence(Front(query), Front(value)))))
  }

  lemma {:induction false} ShorterQuery(query: string, value: string)
    requires Subsequence(query, value) && query != ""
    ensures Subsequence(Front(query), value)
    decreases |value|
  {
    if Subsequence(query, Front(value)) {
      ShorterQuery(query, Front(value));
    }
  }

  lemma {:induction false} LongerValue(query: string, value: string, more: string)
    requires Subsequence(query, value)
    ensures Subsequence(query, value + more)
    decreases |more|
  {
    if more == "" {
      assert value + more == value;
    } else {
      assert Front(value + more) == value + Front(more);
      LongerValue(query, value, Front(more));
    }
  }

  lemma {:induction false} PrefixedValue(query: string, pre: string, value: string)
    requires Subsequence(query, value)
    ensures Subsequence(query, pre + value)
    decreases |value|
  {
    if query != "" {
      assert Front(pre + value) == pre + Front(value);
      if Subsequence(query, Front(value)) {
        PrefixedValue(query, pre, Front(value));
      } else {
        PrefixedValue(Front(query), pre, Front(value));
      }
    }
  }

  lemma {:induction false} Itself(s: string)
    ensures Subsequence(s, s)
  {
    if s != "" {
      Itself(Front(s));
    }
  }

  // ----- The fuzzy score ------------------------------------------------------------

  function FirstIndex(value: string, c: char): (i: nat)
    requires c in value
    ensures i < |value| && value[i] == c && c !in value[..i]
  {
    if value[0] == c then 0
    else
      var i := FirstIndex(value[1..], c) + 1;
      assert value[..i] == [value[0]] + value[1..][..i - 1];
      i
  }

  /** The length of the shortest prefix that has `query` as a subsequence. */
  function ShortestPrefix(query: string, value: string): (n: nat)
    requires Subsequence(query, value)
    ensures n <= |value| && Subsequence(query, value[..n])
    ensures forall m | 0 <= m < n :: !Subsequence(query, value[..m])
    decreases |value|
  {
    if value != "" && Subsequence(query, Front(value)) then
      var n := ShortestPrefix(query, Front(value));
      assert forall m | 0 <= m <= n :: Front(value)[..m] == value[..m];
      n
    else
      assert value[..|value|] == value;
      ShortestIsWhole(query, value);
      |value|
  }

  lemma ShortestIsWhole(query: string, value: string)
    requires value == "" || !Subsequence(query, Front(value))
    ensures forall m | 0 <= m < |value| :: !Subsequence(query, value[..m])
  {
    forall m | 0 <= m < |value| ensures !Subsequence(query, value[..m]) {
      LongerPrefix(query, value, m, |value| - 1);
    }
  }

  lemma LongerPrefix(query: string, value: string, m: nat, n: nat)
    requires m <= n <= |value|
    ensures Subsequence(query, value[..m]) ==> Subsequence(query, value[..n])
  {
    assert value[..m] + value[m..n] == value[..n];
    if Subsequence(query, value[..m]) {
      LongerValue(query, value[..m], value[m..n]);
    }
  }

  lemma NotBefore(value: string, c: char, j: nat)
    requires j <= |value| && c !in value[..j]
    ensures forall k | 0 <= k < j :: value[k] != c
  {
  }

  lemma {:induction false} HasFirst(query: string, value: string)
    requires Subsequence(query, value) && query != ""
    ensures query[0] in value
    decreases |value|
  {
    if Subsequence(query, Front(value)) {
      HasFirst(query, Front(value));
    } else if |query| > 1 {
      HasFirst(Front(query), Front(value));
    }
  }

  /**
   * The score of a match: the first match starts at the first occurrence of the query's first
   * character and ends where the query is first complete; characters skipped in between count
   * four times, once as gaps (weight 3) and once as span.
   */
  function FuzzyScore(value: string, query: string): Option<int> {
    if query == "" then Some(0)
    else if !Subsequence(query, value) then None
    else
      HasFirst(query, value);
      var first, end := FirstIndex(value, query[0]), ShortestPrefix(query, value);
      var skipped := end - first - |query|;
      Some(first * 2 + skipped * 3 + skipped + (if |value| - |query| < 64 then |value| - |query| else 64))
  }

  lemma GreedyStep(query: string, k: nat, value: string, i: nat)
    requires k < |query| && i < |value|
    requires Subsequence(query[..k], value[..i]) && !Subsequence(query[..k + 1], value[..i])
    ensures value[i] != query[k] ==>
      Subsequence(query[..k], value[..i + 1]) && !Subsequence(query[..k + 1], value[..i + 1])
    ensures value[i] == query[k] ==>
      Subsequence(query[..k + 1], value[..i + 1])
      && (k + 1 < |query| ==> !Subsequence(query[..k + 2], value[..i + 1]))
  {
    var now := value[..i + 1];
    assert Front(now) == value[..i] && now[|now| - 1] == value[i];
    assert Front(query[..k + 1]) == query[..k];
    LongerValue(query[..k], value[..i], [value[i]]);
    assert value[..i] + [value[i]] == now;
    if k + 1 < |query| {
      assert Front(query[..k + 2]) == query[..k + 1];
      if Subsequence(query[..k + 2], value[..i]) {
        ShorterQuery(query[..k + 2], value[..i]);
      }
    }
  }

  method ScoreSubsequenceMatch(value: string, query: string) returns (r: Option<int>)
    ensures r == FuzzyScore(value, query)
  {
    if query == "" {
      return Some(0);
    }
    var queryIndex := 0;
    var firstMatchIndex := -1;
    var previousMatchIndex := -1;
    var gapPenalty := 0;
    var valueIndex := 0;
    while valueIndex < |value|
      invariant valueIndex <= |value| && queryIndex < |query|
      invariant Subsequence(query[..queryIndex], value[..valueIndex])
      invariant !Subsequence(query[..queryIndex + 1], value[..valueIndex])
      invariant firstMatchIndex == -1 <==> queryIndex == 0
      invariant previousMatchIndex == -1 <==> queryIndex == 0
      invariant queryIndex == 0 ==> gapPenalty == 0 && query[0] !in value[..valueIndex]
      invariant queryIndex > 0 ==>
        && 0 <= firstMatchIndex <= previousMatchIndex < valueIndex
        && value[firstMatchIndex] == query[0] && query[0] !in value[..firstMatchIndex]
        && gapPenalty == previousMatchIndex - firstMatchIndex + 1 - queryIndex
    {
      GreedyStep(query, queryIndex, value, valueIndex);
      assert value[..valueIndex + 1] == value[..valueIndex] + [value[valueIndex]];
      if value[valueIndex] != query[queryIndex] {
        valueIndex := valueIndex + 1;
        continue;
      }
      if firstMatchIndex == -1 {
        firstMatchIndex := valueIndex;
      }
      if previousMatchIndex != -1 {
        gapPenalty := gapPenalty + valueIndex - previousMatchIndex - 1;
      }
      previousMatchIndex := valueIndex;
      queryIndex := queryIndex + 1;
      if queryIndex == |query| {
        var spanPenalty := valueIndex - firstMatchIndex + 1 - |query|;
        assert gapPenalty == spanPenalty;
        var lengthPenalty := if |value| - |query| < 64 then |value| - |query| else 64;
        MatchComplete(query, value, firstMatchIndex, valueIndex);
        return Some(firstMatchIndex * 2 + gapPenalty * 3 + spanPenalty + lengthPenalty);
      }
      valueIndex := valueIndex + 1;
    }
    assert value[..valueIndex] == value;
    NoMatch(query, value, queryIndex);
    return None;
  }

  lemma MatchComplete(query: string, value: string, first: nat, last: nat)
    requires query != "" && last < |value| && first < |value|
    requires value[first] == query[0] && query[0] !in value[..first]
    requires Subsequence(query[..|query|], value[..last + 1]) && !Subsequence(query[..|query|], value[..last])
    ensures Subsequence(query, value) && query[0] in value
    ensures FirstIndex(value, query[0]) == first && ShortestPrefix(query, value) == last + 1
  {
    assert query[..|query|] == query && value[..|value|] == value;
    LongerPrefix(query, value, last + 1, |value|);
    var f, n := FirstIndex(value, query[0]), ShortestPrefix(query, value);
    NotBefore(value, query[0], f);
    NotBefore(value, query[0], first);
    if n <= last {
      LongerPrefix(query, value, n, last);
    }
  }

  lemma {:induction false} NoMatch(query: string, value: string, k: nat)
    requires k < |query| && !Subsequence(query[..k + 1], value)
    ensures !Subsequence(query, value)
    decreases |query| - k
  {
    if k + 1 == |query| {
      assert query[..k + 1] == query;
    } else {
      if Subsequence(query[..k + 2], value) {
        assert Front(query[..k + 2]) == query[..k + 1];
        ShorterQuery(query[..k + 2], value);
      }
      NoMatch(query, value, k + 1);
    }
  }

  // ----- The score of an entry ---------------------------------------------------------

  datatype WorkspaceEntry = WorkspaceEntry(path: string, isDirectory: bool)

  /** The part behind the last '/'. */
  function BasenameOf(path: string): string {
    if path == "" || path[|path| - 1] == '/' then "" else BasenameOf(Front(path)) + [path[|path| - 1]]
  }

  function NormalizedPath(e: WorkspaceEntry): string { Lower(e.path) }

  function NormalizedName(e: WorkspaceEntry): string { BasenameOf(NormalizedPath(e)) }

  function ScoreEntry(e: WorkspaceEntry, query: string): Option<int> {
    var path, name := NormalizedPath(e), NormalizedName(e);
    if query == "" then Some(if e.isDirectory then 0 else 1)
    else if name == query then Some(0)
    else if path == query then Some(1)
    else if query <= name then Some(2)
    else if query <= path then Some(3)
    else if Includes(path, "/" + query) then Some(4)
    else if Includes(name, query) then Some(5)
    else if Includes(path, query) then Some(6)
    else if FuzzyScore(name, query).Some? then Some(100 + FuzzyScore(name, query).value)
    else if FuzzyScore(path, query).Some? then Some(200 + FuzzyScore(path, query).value)
    else None
  }

  lemma {:induction false} BasenameIsSuffix(path: string) returns (pre: string)
    ensures path == pre + BasenameOf(path)
  {
    if path == "" || path[|path| - 1] == '/' {
      pre := path;
    } else {
      pre := BasenameIsSuffix(Front(path));
    }
  }

  lemma {:induction false} IncludedIsSubsequence(value: string, query: string)
    requires Includes(value, query)
    ensures Subsequence(query, value)
  {
    if query <= value {
      Itself(query);
      LongerValue(query, query, value[|query|..]);
      assert query + value[|query|..] == value;
    } else {
      IncludedIsSubsequence(value[1..], query);
      PrefixedValue(query, [value[0]], value[1..]);
      assert [value[0]] + value[1..] == value;
    }
  }

  lemma {:induction false} IncludedAfter(value: string, c: char, query: string)
    requires Includes(value, [c] + query)
    ensures Subsequence(query, value)
  {
    IncludedIsSubsequence(value, [c] + query);
    DropFirst(query, c, value);
  }

  lemma {:induction false} DropFirst(query: string, c: char, value: string)
    requires Subsequence([c] + query, value)
    ensures Subsequence(query, value)
    decreases |value|
  {
    if query != "" {
      assert Front([c] + query) == [c] + Front(query);
      if Subsequence([c] + query, Front(value)) {
        DropFirst(query, c, Front(value));
      } else {
        DropFirst(Front(query), c, Front(value));
      }
    }
  }

  lemma NameScored(name: string, path: string, pre: string, query: string)
    requires path == pre + name
    ensures Includes(name, query) || Subsequence(query, name) ==> Subsequence(query, path)
  {
    if Includes(name, query) {
      IncludedIsSubsequence(name, query);
    }
    if Subsequence(query, name) {
      PrefixedValue(query, pre, name);
    }
  }

  lemma PathScored(path: string, query: string)
    ensures Includes(path, query) || Includes(path, "/" + query) ==> Subsequence(query, path)
  {
    if Includes(path, query) {
      IncludedIsSubsequence(path, query);
    }
    if Includes(path, "/" + query) {
      IncludedAfter(path, '/', query);
    }
  }

  /** An entry is scored exactly when its lower-cased path has the query as a subsequence. */
  lemma ScoredExactly(e: WorkspaceEntry, query: string)
    ensures ScoreEntry(e, query).Some? <==> Subsequence(query, NormalizedPath(e))
  {
    var path, name := NormalizedPath(e), NormalizedName(e);
    var pre := BasenameIsSuffix(path);
    NameScored(name, path, pre, query);
    PathScored(path, query);
    Itself(query);
  }

  // ----- What outranks what --------------------------------------------------------------

  /** `name` is what follows the last '/' of `path`, or all of it. */
  ghost predicate IsName(path: string, name: string) {
    '/' !in name && (path == name || exists dir: string :: path == dir + "/" + name)
  }

  lemma {:induction false} BasenameExactly(path: string, name: string)
    ensures IsName(path, name) <==> name == BasenameOf(path)
  {
    if path != "" && path[|path| - 1] != '/' {
      var last := path[|path| - 1];
      assert path == Front(path) + [last];
      if name != "" {
        BasenameExactly(Front(path), Front(name));
        NameGrows(path, name);
      } else {
        forall dir: string ensures path != dir + "/" + "" {
          assert (dir + "/" + "")[|dir|] == '/';
        }
      }
    } else {
      NameBehindSlash(path, name);
    }
  }

  lemma NameBehindSlash(path: string, name: string)
    requires path == "" || path[|path| - 1] == '/'
    ensures IsName(path, name) <==> name == ""
  {
    if name != "" {
      assert path == name ==> name[|name| - 1] == '/';
      forall dir: string | path == dir + "/" + name ensures '/' in name {
        assert path[|path| - 1] == name[|name| - 1];
      }
    } else if path != "" {
      assert path == Front(path) + "/" + "";
    }
  }

  lemma NameGrows(path: string, name: string)
    requires path != "" && path[|path| - 1] != '/' && name != ""
    ensures IsName(path, name) <==> IsName(Front(path), Front(name)) && name == Front(name) + [path[|path| - 1]]
  {
    if IsName(path, name) {
      NameShrinks(path, name);
    }
    if IsName(Front(path), Front(name)) && name == Front(name) + [path[|path| - 1]] {
      NameExtends(Front(path), Front(name), path[|path| - 1]);
      assert path == Front(path) + [path[|path| - 1]];
    }
  }

  lemma NameShrinks(path: string, name: string)
    requires path != "" && name != "" && IsName(path, name)
    ensures IsName(Front(path), Front(name)) && name == Front(name) + [path[|path| - 1]]
  {
    if path != name {
      var dir: string :| path == dir + "/" + name;
      assert path[|path| - 1] == name[|name| - 1];
      assert Front(path) == dir + "/" + Front(name);
    }
  }

  lemma NameExtends(path: string, name: string, c: char)
    requires IsName(path, name) && c != '/'
    ensures IsName(path + [c], name + [c])
  {
    if path != name {
      var dir: string :| path == dir + "/" + name;
      assert path + [c] == dir + "/" + (name + [c]);
    }
  }

  /** The ways of matching that outrank every fuzzy match, best first. */
  datatype Criterion = ExactName | ExactPath | NamePrefix | PathPrefix | AfterSlash | InName | InPath

  const CRITERIA: seq<Criterion> := [ExactName, ExactPath, NamePrefix, PathPrefix, AfterSlash, InName, InPath]

  ghost predicate Meets(e: WorkspaceEntry, query: string, criterion: Criterion) {
    var path := Lower(e.path);
    match criterion
    case ExactName => IsName(path, query)
    case ExactPath => path == query
    case NamePrefix => exists rest: string :: IsName(path, query + rest)
    case PathPrefix => exists rest: string :: path == query + rest
    case AfterSlash => Contains(path, "/" + query)
    case InName => exists name: string :: IsName(path, name) && Contains(name, query)
    case InPath => Contains(path, query)
  }

  /** The best criterion `e` meets. */
  ghost predicate IsBest(e: WorkspaceEntry, query: string, k: nat) {
    k < |CRITERIA| && Meets(e, query, CRITERIA[k]) && forall j | 0 <= j < k :: !Meets(e, query, CRITERIA[j])
  }

  lemma MeetsExactly(e: WorkspaceEntry, query: string)
    ensures var path, name := NormalizedPath(e), NormalizedName(e);
      && (Meets(e, query, ExactName) <==> name == query)
      && (Meets(e, query, ExactPath) <==> path == query)
      && (Meets(e, query, NamePrefix) <==> query <= name)
      && (Meets(e, query, PathPrefix) <==> query <= path)
      && (Meets(e, query, AfterSlash) <==> Includes(path, "/" + query))
      && (Meets(e, query, InName) <==> Includes(name, query))
      && (Meets(e, query, InPath) <==> Includes(path, query))
  {
    hide IsName, Contains, Includes, BasenameOf;
    var path, name := NormalizedPath(e), NormalizedName(e);
    forall other: string ensures IsName(path, other) <==> other == name {
      BasenameExactly(path, other);
    }
    if query <= name {
      assert name == query + name[|query|..];
    }
    if query <= path {
      assert path == query + path[|query|..];
    }
    IncludesExactly(path, "/" + query);
    IncludesExactly(name, query);
    IncludesExactly(path, query);
  }

  lemma {:induction false} Unstarted(query: string, value: string, first: nat)
    requires query != "" && first <= |value| && query[0] !in value[..first] && Subsequence(query, value)
    ensures first + |query| <= |value|
    decreases |value|
  {
    HasFirst(query, value);
    assert value[..|value|] == value;
    if first < |value| {
      assert Front(value)[..first] == value[..first];
      if Subsequence(query, Front(value)) {
        Unstarted(query, Front(value), first);
      } else if |query| > 1 {
        Unstarted(Front(query), Front(value), first);
      }
    }
  }

  lemma FuzzyNotNegative(value: string, query: string)
    ensures FuzzyScore(value, query).Some? ==> FuzzyScore(value, query).value >= 0
  {
    if query != "" && Subsequence(query, value) {
      HasFirst(query, value);
      var first, end := FirstIndex(value, query[0]), ShortestPrefix(query, value);
      HasFirst(query, value[..end]);
      NotBefore(value, query[0], first);
      assert first <= end;
      assert value[..end][..first] == value[..first];
      Unstarted(query, value[..end], first);
    }
  }

  function Raised(base: int, score: Option<int>): Option<int> {
    if score.Some? then Some(base + score.value) else None
  }

  function Either(first: Option<int>, second: Option<int>): Option<int> {
    if first.Some? then first else second
  }

  /** An entry that meets a criterion is scored by the best one; only fuzzy matches score 100 or more. */
  lemma TierExactly(e: WorkspaceEntry, query: string)
    requires query != ""
    ensures forall k: nat | k < 100 :: ScoreEntry(e, query) == Some(k) <==> IsBest(e, query, k)
    ensures ScoreEntry(e, query).Some? ==> ScoreEntry(e, query).value >= 0
    ensures (forall k :: !IsBest(e, query, k)) ==>
      ScoreEntry(e, query) == Either(Raised(100, FuzzyScore(NormalizedName(e), query)),
                                     Raised(200, FuzzyScore(NormalizedPath(e), query)))
  {
    hide Meets, Includes, FuzzyScore;
    MeetsExactly(e, query);
    FuzzyNotNegative(NormalizedName(e), query);
    FuzzyNotNegative(NormalizedPath(e), query);
    assert CRITERIA[0] == ExactName && CRITERIA[1] == ExactPath && CRITERIA[2] == NamePrefix && CRITERIA[3] == PathPrefix
      && CRITERIA[4] == AfterSlash && CRITERIA[5] == InName && CRITERIA[6] == InPath;
  }

  /** What meets a criterion outranks whatever meets neither it nor a better one, fuzzy matches included. */
  lemma RankingLaw(d: WorkspaceEntry, e: WorkspaceEntry, query: string, k: nat)
    requires query != "" && k < |CRITERIA| && Meets(d, query, CRITERIA[k])
    requires forall j | 0 <= j <= k :: !Meets(e, query, CRITERIA[j])
    requires ScoreEntry(e, query).Some?
    ensures ScoreEntry(d, query).Some? && ScoreEntry(d, query).value < ScoreEntry(e, query).value
  {
    hide Meets, ScoreEntry;
    TierExactly(d, query);
    TierExactly(e, query);
    var best := BestOf(d, query, k);
    assert ScoreEntry(d, query) == Some(best);
    assert forall j: nat | j <= k :: !IsBest(e, query, j);
  }

  lemma {:induction false} BestOf(e: WorkspaceEntry, query: string, k: nat) returns (best: nat)
    requires k < |CRITERIA| && Meets(e, query, CRITERIA[k])
    ensures best <= k && IsBest(e, query, best)
  {
    best := k;
    if j :| 0 <= j < k && Meets(e, query, CRITERIA[j]) {
      best := BestOf(e, query, j);
    }
  }

  /** Without a query everything matches, directories first. */
  lemma EmptyQueryRanking(d: WorkspaceEntry, e: WorkspaceEntry)
    ensures ScoreEntry(d, "").Some? && ScoreEntry(e, "").Some?
    ensures ScoreEntry(d, "").value < ScoreEntry(e, "").value <==> d.isDirectory && !e.isDirectory
  {
  }

  // ----- The search ------------------------------------------------------------------------

  datatype Ranked = Ranked(entry: WorkspaceEntry, score: int)

  type Collator = (string, string) -> int

  /** localeCompare, as far as it matters: a total preorder on texts. */
  ghost predicate Collation(collate: Collator) { TotalPreorder(collate) }

  function RankedOrder(collate: Collator): (Ranked, Ranked) -> int {
    (l: Ranked, r: Ranked) => if l.score != r.score then l.score - r.score else collate(l.entry.path, r.entry.path)
  }

  lemma RankedOrderIsTotal(collate: Collator)
    requires Collation(collate)
    ensures TotalPreorder(RankedOrder(collate))
  {
    var order := RankedOrder(collate);
    forall a: Ranked, b: Ranked ensures order(a, b) < 0 <==> order(b, a) > 0 {
      assert collate(a.entry.path, b.entry.path) < 0 <==> collate(b.entry.path, a.entry.path) > 0;
    }
    forall a: Ranked, b: Ranked, c: Ranked | order(a, b) <= 0 && order(b, c) <= 0 ensures order(a, c) <= 0 {
      if a.score == c.score {
        assert collate(a.entry.path, b.entry.path) <= 0 && collate(b.entry.path, c.entry.path) <= 0;
      }
    }
  }

  /** Everything that matches, in index order. */
  function Matches(entries: seq<WorkspaceEntry>, query: string): seq<Ranked> {
    if entries == [] then []
    else
      var last := entries[|entries| - 1];
      var score := ScoreEntry(last, query);
      Matches(entries[..|entries| - 1], query) + if score.None? then [] else [Ranked(last, score.value)]
  }

  function EntriesOf(ranked: seq<Ranked>): seq<WorkspaceEntry> {
    seq(|ranked|, i requires 0 <= i < |ranked| => ranked[i].entry)
  }

  /** `d` is not listed behind `e`: it has the smaller score, or the same and the smaller path. */
  predicate InRankOrder(d: WorkspaceEntry, e: WorkspaceEntry, query: string, collate: Collator) {
    var mine, theirs := ScoreEntry(d, query), ScoreEntry(e, query);
    && mine.Some? && theirs.Some?
    && (mine.value < theirs.value || (mine.value == theirs.value && collate(d.path, e.path) <= 0))
  }

  lemma {:induction false} MatchesScored(entries: seq<WorkspaceEntry>, query: string)
    ensures forall m | m in Matches(entries, query) :: ScoreEntry(m.entry, query) == Some(m.score)
    ensures forall e | e in entries && ScoreEntry(e, query).Some? ::
      Ranked(e, ScoreEntry(e, query).value) in Matches(entries, query)
  {
    hide ScoreEntry;
    if entries != [] {
      MatchesScored(entries[..|entries| - 1], query);
      assert entries == entries[..|entries| - 1] + [entries[|entries| - 1]];
    }
  }

  lemma RankedInOrder(l: Ranked, r: Ranked, query: string, collate: Collator)
    requires ScoreEntry(l.entry, query) == Some(l.score) && ScoreEntry(r.entry, query) == Some(r.score)
    requires RankedOrder(collate)(l, r) <= 0
    ensures InRankOrder(l.entry, r.entry, query, collate)
  {
  }

  /** What is kept is in rank order, and in rank order before everything left out. */
  lemma SelectionRanked(entries: seq<WorkspaceEntry>, query: string, kept: seq<Ranked>, limit: int, p: seq<nat>,
                        collate: Collator)
    requires Selection(Matches(entries, query), kept, limit, p, RankedOrder(collate))
    ensures forall i, j | 0 <= i < j < |kept| :: InRankOrder(kept[i].entry, kept[j].entry, query, collate)
    ensures forall e, f | e in entries && Subsequence(query, NormalizedPath(e)) && e !in EntriesOf(kept) && f in EntriesOf(kept) ::
      InRankOrder(f, e, query, collate)
  {
    hide ScoreEntry, Matches, InRankOrder;
    var all, order := Matches(entries, query), RankedOrder(collate);
    MatchesScored(entries, query);
    forall i, j | 0 <= i < j < |kept| ensures InRankOrder(kept[i].entry, kept[j].entry, query, collate) {
      assert Before(all, p[i], p[j], order);
      RankedInOrder(kept[i], kept[j], query, collate);
    }
    forall e, f | e in entries && Subsequence(query, NormalizedPath(e)) && e !in EntriesOf(kept) && f in EntriesOf(kept)
      ensures InRankOrder(f, e, query, collate)
    {
      ScoredExactly(e, query);
      var i :| 0 <= i < |all| && all[i] == Ranked(e, ScoreEntry(e, query).value);
      var k :| 0 <= k < |kept| && EntriesOf(kept)[k] == f;
      forall n | 0 <= n < |p| ensures p[n] != i {
        assert EntriesOf(kept)[n] == kept[n].entry == all[p[n]].entry;
      }
      assert i !in p;
      assert Before(all, p[k], i, order);
      RankedInOrder(kept[k], all[i], query, collate);
    }
  }

  method SearchWorkspaceEntries(entries: seq<WorkspaceEntry>, indexTruncated: bool, query: string, inputLimit: real,
                                collate: Collator)
    returns (found: seq<WorkspaceEntry>, truncated: bool)
    requires Collation(collate)
    ensures truncated <==> indexTruncated || |Matches(entries, query)| > if inputLimit.Floor < 0 then 0 else inputLimit.Floor
    ensures forall sorted, q | StableSort(Matches(entries, query), sorted, q, RankedOrder(collate)) ::
      found <= EntriesOf(sorted)
    ensures |found| == AtMost(inputLimit.Floor, |Matches(entries, query)|)
    ensures forall i, j | 0 <= i < j < |found| :: InRankOrder(found[i], found[j], query, collate)
    ensures forall e, f | e in entries && Subsequence(query, NormalizedPath(e)) && e !in found && f in found ::
      InRankOrder(f, e, query, collate)
  {
    hide ScoreEntry, TotalPreorder;
    RankedOrderIsTotal(collate);
    var limit := if inputLimit.Floor < 0 then 0 else inputLimit.Floor;
    var ranked := new RankedList<Ranked>(RankedOrder(collate));
    var matchedEntryCount := 0;
    ghost var p: seq<nat> := [];
    for i := 0 to |entries|
      invariant matchedEntryCount == |Matches(entries[..i], query)|
      invariant Selection(Matches(entries[..i], query), ranked.entries, limit, p, RankedOrder(collate))
      invariant fresh(ranked) && ranked.compare == RankedOrder(collate)
    {
      assert entries[..i + 1][..i] == entries[..i];
      var score := ScoreEntry(entries[i], query);
      if score.None? {
        assert Matches(entries[..i], query) + [] == Matches(entries[..i], query);
        continue;
      }
      matchedEntryCount := matchedEntryCount + 1;
      p := ranked.Insert(Ranked(entries[i], score.value), limit, Matches(entries[..i], query), p);
    }
    assert entries[..|entries|] == entries;
    found := EntriesOf(ranked.entries);
    truncated := indexTruncated || matchedEntryCount > limit;
    forall sorted, q | StableSort(Matches(entries, query), sorted, q, RankedOrder(collate))
      ensures found <= EntriesOf(sorted)
    {
      SelectionIsPrefix(Matches(entries, query), ranked.entries, limit, p, sorted, q, RankedOrder(collate));
    }
    SelectionRanked(entries, query, ranked.entries, limit, p, collate);
  }

  /** The indexed entries whose lower-cased path has the query as a subsequence, in index order. */
  function WithSubsequence(entries: seq<WorkspaceEntry>, query: string): seq<WorkspaceEntry> {
    if entries == [] then []
    else
      var front, last := entries[..|entries| - 1], entries[|entries| - 1];
      WithSubsequence(front, query) + if Subsequence(query, NormalizedPath(last)) then [last] else []
  }

  /** The matches are exactly those entries, each as often and in the order it is indexed. */
  lemma {:induction false} MatchesExactly(entries: seq<WorkspaceEntry>, query: string)
    ensures EntriesOf(Matches(entries, query)) == WithSubsequence(entries, query)
  {
    if entries != [] {
      var front, last := entries[..|entries| - 1], entries[|entries| - 1];
      MatchesExactly(front, query);
      ScoredExactly(last, query);
      assert EntriesOf(Matches(entries, query)) == EntriesOf(Matches(front, query))
        + if ScoreEntry(last, query).None? then [] else [last];
    }
  }
}
