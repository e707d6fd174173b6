/**
 * The approvals and user inputs a thread still waits for, folded from its activities through
 * an insertion-ordered map from request id to request.
 */
module PendingRequests {
  import opened Wrappers
  import opened RequestKinds
  import opened Sequences
  import opened TopRanked
  import opened ActivityOrder
  import Text

  datatype PendingApproval =
    PendingApproval(requestId: string, requestKind: RequestKind, createdAt: string, detail: Option<string>)

  datatype QuestionOption = QuestionOption(name: string, description: string)
  datatype Question = Question(id: string, header: string, question: string, options: seq<QuestionOption>)
  datatype PendingUserInput = PendingUserInput(requestId: string, createdAt: string, questions: seq<Question>)

  /** What an activity does to the open requests. */
  datatype Change<V> = Opens(requestId: string, request: V) | Closes(requestId: string) | Ignored

  // ----- Reading an activity ---------------------------------------------------------

  function RequestKindFromRequestType(requestType: Option<string>): Option<RequestKind> {
    match requestType
    case None => None
    case Some(t) =>
      if t == "command_execution_approval" || t == "exec_command_approval" || t == "dynamic_tool_call" then Some(Command)
      else if t == "file_read_approval" then Some(FileRead)
      else if t == "file_change_approval" || t == "apply_patch_approval" then Some(FileChange)
      else None
  }

  function RequestKindOf(payload: Payload): Option<RequestKind> {
    if payload.requestKind == Some("command") then Some(Command)
    else if payload.requestKind == Some("file-read") then Some(FileRead)
    else if payload.requestKind == Some("file-change") then Some(FileChange)
    else RequestKindFromRequestType(payload.requestType)
  }

  predicate IsStalePendingRequestFailureDetail(detail: Option<string>) {
    detail.Some? &&
    var normalized := Text.Lower(detail.value);
    || Text.Includes(normalized, "stale pending approval request")
    || Text.Includes(normalized, "stale pending user-input request")
    || Text.Includes(normalized, "unknown pending approval request")
    || Text.Includes(normalized, "unknown pending permission request")
    || Text.Includes(normalized, "unknown pending user-input request")
  }

  predicate HasText(s: Option<string>) {
    s.Some? && s.value != ""
  }

  function ParseOptions(raw: seq<RawOption>): seq<QuestionOption> {
    if raw == [] then []
    else
      (if raw[0].name.Some? && raw[0].description.Some?
       then [QuestionOption(raw[0].name.value, raw[0].description.value)] else []) + ParseOptions(raw[1..])
  }

  function ParseQuestions(raw: seq<RawQuestion>): seq<Question> {
    if raw == [] then []
    else
      (match raw[0]
       case RawQuestion(Some(id), Some(header), Some(question), Some(options)) =>
         if ParseOptions(options) == [] then [] else [Question(id, header, question, ParseOptions(options))]
       case _ => []) + ParseQuestions(raw[1..])
  }

  function ParseUserInputQuestions(payload: Payload): Option<seq<Question>> {
    match payload.questions
    case None => None
    case Some(raw) => if ParseQuestions(raw) == [] then None else Some(ParseQuestions(raw))
  }

  function ApprovalChange(a: Activity): Change<PendingApproval> {
    var payload := a.payload;
    if !HasText(payload.requestId) then Ignored
    else
      var id := payload.requestId.value;
      if a.kind == "approval.requested" && RequestKindOf(payload).Some? then
        Opens(id, PendingApproval(id, RequestKindOf(payload).value, a.createdAt,
                                  if HasText(payload.detail) then payload.detail else None))
      else if a.kind == "approval.resolved" then Closes(id)
      else if a.kind == "provider.approval.respond.failed" && IsStalePendingRequestFailureDetail(payload.detail) then Closes(id)
      else Ignored
  }

  function UserInputChange(a: Activity): Change<PendingUserInput> {
    var payload := a.payload;
    if !HasText(payload.requestId) then Ignored
    else
      var id := payload.requestId.value;
      if a.kind == "user-input.requested" then
        match ParseUserInputQuestions(payload)
        case None => Ignored
        case Some(questions) => Opens(id, PendingUserInput(id, a.createdAt, questions))
      else if a.kind == "user-input.resolved" then Closes(id)
      else if a.kind == "provider.user-input.respond.failed" && IsStalePendingRequestFailureDetail(payload.detail) then Closes(id)
      else Ignored
  }

  // ----- The same, told by fields --------------------------------------------------------

  function KindText(kind: RequestKind): string {
    match kind case Command => "command" case FileRead => "file-read" case FileChange => "file-change"
  }

  function TypesOf(kind: RequestKind): set<string> {
    match kind
    case Command => {"command_execution_approval", "exec_command_approval", "dynamic_tool_call"}
    case FileRead => {"file_read_approval"}
    case FileChange => {"file_change_approval", "apply_patch_approval"}
  }

  /** The payload names the kind or, naming no kind, has a request type of that kind. */
  predicate AsksFor(payload: Payload, kind: RequestKind) {
    || payload.requestKind == Some(KindText(kind))
    || ((forall k: RequestKind :: payload.requestKind != Some(KindText(k)))
        && payload.requestType.Some? && payload.requestType.value in TypesOf(kind))
  }

  const STALE_DETAILS: set<string> := {
    "stale pending approval request", "stale pending user-input request", "unknown pending approval request",
    "unknown pending permission request", "unknown pending user-input request"}

  ghost predicate FoundStale(detail: Option<string>) {
    detail.Some? && exists text :: text in STALE_DETAILS && Text.Contains(Text.Lower(detail.value), text)
  }

  predicate Names(a: Activity, id: string) {
    id != "" && a.payload.requestId == Some(id)
  }

  predicate ApprovalRequested(a: Activity, request: PendingApproval) {
    && a.kind == "approval.requested" && Names(a, request.requestId) && AsksFor(a.payload, request.requestKind)
    && request.createdAt == a.createdAt
    && request.detail == if a.payload.detail == Some("") then None else a.payload.detail
  }

  ghost predicate ApprovalResolved(a: Activity, id: string) {
    && Names(a, id)
    && (a.kind == "approval.resolved" || (a.kind == "provider.approval.respond.failed" && FoundStale(a.payload.detail)))
  }

  predicate UserInputRequested(a: Activity, request: PendingUserInput) {
    && a.kind == "user-input.requested" && Names(a, request.requestId) && request.createdAt == a.createdAt
    && request.questions != []
    && a.payload.questions.Some? && ParseQuestions(a.payload.questions.value) == request.questions
  }

  ghost predicate UserInputResolved(a: Activity, id: string) {
    && Names(a, id)
    && (a.kind == "user-input.resolved" || (a.kind == "provider.user-input.respond.failed" && FoundStale(a.payload.detail)))
  }

  lemma RequestKindExactly(payload: Payload, kind: RequestKind)
    ensures RequestKindOf(payload) == Some(kind) <==> AsksFor(payload, kind)
  {
    assert KindText(Command) == "command" && KindText(FileRead) == "file-read" && KindText(FileChange) == "file-change";
  }

  lemma StaleExactly(detail: Option<string>)
    ensures IsStalePendingRequestFailureDetail(detail) <==> FoundStale(detail)
  {
    if detail.Some? {
      forall text | text in STALE_DETAILS
        ensures Text.Includes(Text.Lower(detail.value), text) <==> Text.Contains(Text.Lower(detail.value), text)
      {
        Text.IncludesExactly(Text.Lower(detail.value), text);
      }
    }
  }

  lemma ApprovalChangeExactly(a: Activity)
    ensures forall id, request :: ApprovalChange(a) == Opens(id, request) <==>
              id == request.requestId && ApprovalRequested(a, request)
    ensures forall id :: ApprovalChange(a) == Closes(id) <==> ApprovalResolved(a, id)
  {
    forall id, request
      ensures ApprovalChange(a) == Opens(id, request) <==> id == request.requestId && ApprovalRequested(a, request)
    {
      ApprovalOpensExactly(a, id, request);
    }
    StaleExactly(a.payload.detail);
  }

  lemma ApprovalOpensExactly(a: Activity, id: string, request: PendingApproval)
    ensures ApprovalChange(a) == Opens(id, request) <==> id == request.requestId && ApprovalRequested(a, request)
  {
    hide AsksFor, RequestKindOf, IsStalePendingRequestFailureDetail;
    RequestKindExactly(a.payload, request.requestKind);
  }

  lemma UserInputChangeExactly(a: Activity)
    ensures forall id, request :: UserInputChange(a) == Opens(id, request) <==>
              id == request.requestId && UserInputRequested(a, request)
    ensures forall id :: UserInputChange(a) == Closes(id) <==> UserInputResolved(a, id)
  {
    hide FoundStale, IsStalePendingRequestFailureDetail, ParseQuestions;
    StaleExactly(a.payload.detail);
  }

  /** Options and questions are read one by one, in order. */
  lemma FirstOption(raw: RawOption, more: seq<RawOption>)
    ensures ParseOptions([raw] + more) == ParseOptions([raw]) + ParseOptions(more)
  {
    assert ([raw] + more)[1..] == more && [raw][1..] == [];
  }

  lemma NoOptions()
    ensures ParseOptions([]) == []
  {
  }

  lemma {:induction false} OptionsInOrder(raw: seq<RawOption>, more: seq<RawOption>)
    ensures ParseOptions(raw + more) == ParseOptions(raw) + ParseOptions(more)
  {
    hide ParseOptions;
    if raw == [] {
      NoOptions();
      assert raw + more == more;
    } else {
      OptionsInOrder(raw[1..], more);
      FirstOption(raw[0], raw[1..]);
      FirstOption(raw[0], raw[1..] + more);
      assert raw == [raw[0]] + raw[1..] && raw + more == [raw[0]] + (raw[1..] + more);
    }
  }

  lemma FirstQuestion(raw: RawQuestion, more: seq<RawQuestion>)
    ensures ParseQuestions([raw] + more) == ParseQuestions([raw]) + ParseQuestions(more)
  {
    hide ParseOptions;
    assert ([raw] + more)[1..] == more && [raw][1..] == [];
  }

  lemma NoQuestions()
    ensures ParseQuestions([]) == []
  {
  }

  lemma {:induction false} QuestionsInOrder(raw: seq<RawQuestion>, more: seq<RawQuestion>)
    ensures ParseQuestions(raw + more) == ParseQuestions(raw) + ParseQuestions(more)
  {
    hide ParseOptions, ParseQuestions;
    if raw == [] {
      NoQuestions();
      assert raw + more == more;
    } else {
      QuestionsInOrder(raw[1..], more);
      FirstQuestion(raw[0], raw[1..]);
      FirstQuestion(raw[0], raw[1..] + more);
      assert raw == [raw[0]] + raw[1..] && raw + more == [raw[0]] + (raw[1..] + more);
    }
  }

  /** An option is taken over exactly when it is complete. */
  lemma OptionExactly(raw: RawOption, o: QuestionOption)
    ensures ParseOptions([raw]) == [o] <==> raw == RawOption(Some(o.name), Some(o.description))
    ensures ParseOptions([raw]) == [] <==> raw.name.None? || raw.description.None?
  {
    assert ParseOptions([raw][1..]) == [];
    if ParseOptions([raw]) == [o] {
      assert ParseOptions([raw])[0] == o;
    }
  }

  /** A question is taken over exactly when it is complete and has an option. */
  lemma QuestionExactly(raw: RawQuestion, q: Question)
    ensures ParseQuestions([raw]) == [q] <==>
      && raw.id == Some(q.id) && raw.header == Some(q.header) && raw.question == Some(q.question)
      && raw.options.Some? && ParseOptions(raw.options.value) == q.options != []
    ensures ParseQuestions([raw]) == [] <==>
      raw.id.None? || raw.header.None? || raw.question.None? || raw.options.None? || ParseOptions(raw.options.value) == []
  {
    hide ParseOptions;
    assert ParseQuestions([raw][1..]) == [];
    if ParseQuestions([raw]) == [q] {
      assert ParseQuestions([raw])[0] == q;
    }
  }

  // ----- The insertion-ordered map -----------------------------------------------------

  /** Map.set: an id already there keeps its place. */
  function SetEntry<V>(open: seq<(string, V)>, id: string, request: V): seq<(string, V)> {
    if open == [] then [(id, request)]
    else if open[0].0 == id then [(id, request)] + open[1..]
    else [open[0]] + SetEntry(open[1..], id, request)
  }

  function DeleteEntry<V>(open: seq<(string, V)>, id: string): seq<(string, V)> {
    if open == [] then []
    else if open[0].0 == id then open[1..]
    else [open[0]] + DeleteEntry(open[1..], id)
  }

  function Lookup<V>(open: seq<(string, V)>, id: string): Option<V> {
    if open == [] then None
    else if open[0].0 == id then Some(open[0].1)
    else Lookup(open[1..], id)
  }

  function Values<V>(open: seq<(string, V)>): seq<V> {
    if open == [] then [] else [open[0].1] + Values(open[1..])
  }

  predicate DistinctKeys<V>(open: seq<(string, V)>) {
    open == [] || (Lookup(open[1..], open[0].0).None? && DistinctKeys(open[1..]))
  }

  function Changed<V>(open: seq<(string, V)>, change: Change<V>): seq<(string, V)> {
    match change
    case Opens(id, request) => SetEntry(open, id, request)
    case Closes(id) => DeleteEntry(open, id)
    case Ignored => open
  }

  /** The map after reading `ordered`. */
  function OpenRequests<V>(ordered: seq<Activity>, read: Activity -> Change<V>): seq<(string, V)>
    decreases |ordered|
  {
    if ordered == [] then [] else Changed(OpenRequests(Front(ordered), read), read(Last(ordered)))
  }

  lemma {:induction false} SetThenLookup<V>(open: seq<(string, V)>, id: string, request: V, other: string)
    requires DistinctKeys(open)
    ensures DistinctKeys(SetEntry(open, id, request))
    ensures Lookup(SetEntry(open, id, request), other) == if other == id then Some(request) else Lookup(open, other)
  {
    if open != [] && open[0].0 != id {
      SetThenLookup(open[1..], id, request, other);
      SetThenLookup(open[1..], id, request, open[0].0);
    }
  }

  lemma {:induction false} DeleteThenLookup<V>(open: seq<(string, V)>, id: string, other: string)
    requires DistinctKeys(open)
    ensures DistinctKeys(DeleteEntry(open, id))
    ensures Lookup(DeleteEntry(open, id), other) == if other == id then None else Lookup(open, other)
  {
    if open != [] && open[0].0 != id {
      DeleteThenLookup(open[1..], id, other);
      DeleteThenLookup(open[1..], id, open[0].0);
    }
  }

  // ----- Which requests are open -------------------------------------------------------

  predicate Mentions<V>(change: Change<V>, id: string) {
    !change.Ignored? && change.requestId == id
  }

  /** The last activity of `ordered` that mentions `id`. */
  function LastMention<V>(ordered: seq<Activity>, read: Activity -> Change<V>, id: string): Option<Activity>
    decreases |ordered|
  {
    if ordered == [] then None
    else if Mentions(read(Last(ordered)), id) then Some(Last(ordered))
    else LastMention(Front(ordered), read, id)
  }

  lemma {:induction false} LookupIsLastMention<V>(ordered: seq<Activity>, read: Activity -> Change<V>, id: string)
    ensures DistinctKeys(OpenRequests(ordered, read))
    ensures Lookup(OpenRequests(ordered, read), id) == match LastMention(ordered, read, id)
      case None => None
      case Some(a) => if read(a).Opens? then Some(read(a).request) else None
    decreases |ordered|
  {
    if ordered != [] {
      LookupIsLastMention(Front(ordered), read, id);
      var open := OpenRequests(Front(ordered), read);
      match read(Last(ordered))
      case Opens(key, request) => SetThenLookup(open, key, request, id);
      case Closes(key) => DeleteThenLookup(open, key, id);
      case Ignored =>
    }
  }

  lemma {:induction false} LastMentionPosition<V>(ordered: seq<Activity>, read: Activity -> Change<V>, id: string)
    returns (i: nat)
    ensures match LastMention(ordered, read, id)
      case None => forall k | 0 <= k < |ordered| :: !Mentions(read(ordered[k]), id)
      case Some(a) =>
        && i < |ordered| && ordered[i] == a && Mentions(read(a), id)
        && forall k | i < k < |ordered| :: !Mentions(read(ordered[k]), id)
    decreases |ordered|
  {
    i := 0;
    if ordered != [] {
      if Mentions(read(Last(ordered)), id) {
        i := |ordered| - 1;
      } else {
        i := LastMentionPosition(Front(ordered), read, id);
      }
    }
  }

  /** Of all activities of the log that mention `id`, `a` comes last. */
  ghost predicate IsLastMention<V>(log: seq<Activity>, read: Activity -> Change<V>, id: string, a: Activity, collate: Collator) {
    && a in log && Mentions(read(a), id)
    && forall b | b in log && Mentions(read(b), id) && b != a :: Precedes(b, a, collate)
  }

  lemma LastMentionOfLog<V>(log: seq<Activity>, read: Activity -> Change<V>, id: string, collate: Collator)
    requires TotalPreorder(collate) && IdsTellApart(log, collate)
    ensures match LastMention(Ordered(log, collate), read, id)
      case None => forall a | a in log :: !Mentions(read(a), id)
      case Some(a) => IsLastMention(log, read, id, a, collate)
  {
    var ordered := Ordered(log, collate);
    OrderedIsStrict(log, collate);
    var i := LastMentionPosition(ordered, read, id);
    forall b | b in log ensures b in ordered { }
    if LastMention(ordered, read, id).Some? {
      forall b | b in log && Mentions(read(b), id) && b != ordered[i]
        ensures Precedes(b, ordered[i], collate)
      {
        var k :| 0 <= k < |ordered| && ordered[k] == b;
        OrderedPositions(log, collate, k, i);
        OrderIsLexicographic(b, ordered[i], collate);
      }
    }
  }

  lemma PrecedesOneWay(a: Activity, b: Activity, collate: Collator)
    requires TotalPreorder(collate)
    ensures !(Precedes(a, b, collate) && Precedes(b, a, collate))
  {
    OrderIsLexicographic(a, b, collate);
    OrderIsLexicographic(b, a, collate);
    Antisymmetric(a, b, collate);
  }

  /** A request is open, with this content, exactly when the last activity that mentions it opens it so. */
  lemma OpenExactly<V>(log: seq<Activity>, read: Activity -> Change<V>, id: string, request: V, collate: Collator)
    requires TotalPreorder(collate) && IdsTellApart(log, collate)
    ensures Lookup(OpenRequests(Ordered(log, collate), read), id) == Some(request) <==>
      exists a :: IsLastMention(log, read, id, a, collate) && read(a) == Opens(id, request)
  {
    LookupIsLastMention(Ordered(log, collate), read, id);
    LastMentionOfLog(log, read, id, collate);
    forall a, b | IsLastMention(log, read, id, a, collate) && IsLastMention(log, read, id, b, collate) ensures a == b {
      PrecedesOneWay(a, b, collate);
    }
  }

  // ----- The derived lists ---------------------------------------------------------------

  function ByTime<V>(timeOf: V -> string, collate: Collator): (V, V) -> int {
    (l: V, r: V) => collate(timeOf(l), timeOf(r))
  }

  function ApprovalsByTime(collate: Collator): (PendingApproval, PendingApproval) -> int {
    ByTime((r: PendingApproval) => r.createdAt, collate)
  }

  function UserInputsByTime(collate: Collator): (PendingUserInput, PendingUserInput) -> int {
    ByTime((r: PendingUserInput) => r.createdAt, collate)
  }

  function PendingApprovals(log: seq<Activity>, collate: Collator): seq<PendingApproval> {
    ToSorted(Values(OpenRequests(Ordered(log, collate), ApprovalChange)), ApprovalsByTime(collate))
  }

  function PendingUserInputs(log: seq<Activity>, collate: Collator): seq<PendingUserInput> {
    ToSorted(Values(OpenRequests(Ordered(log, collate), UserInputChange)), UserInputsByTime(collate))
  }

  method DerivePendingApprovals(activities: seq<Activity>, collate: Collator) returns (pending: seq<PendingApproval>)
    ensures pending == PendingApprovals(activities, collate)
  {
    var openByRequestId: seq<(string, PendingApproval)> := [];
    var ordered := Ordered(activities, collate);
    for i := 0 to |ordered|
      invariant openByRequestId == OpenRequests(ordered[..i], ApprovalChange)
    {
      assert Front(ordered[..i + 1]) == ordered[..i] && Last(ordered[..i + 1]) == ordered[i];
      var activity := ordered[i];
      var requestId, detail := activity.payload.requestId, activity.payload.detail;
      var requestKind := RequestKindOf(activity.payload);
      if activity.kind == "approval.requested" && HasText(requestId) && requestKind.Some? {
        openByRequestId := SetEntry(openByRequestId, requestId.value,
          PendingApproval(requestId.value, requestKind.value, activity.createdAt, if HasText(detail) then detail else None));
      } else if activity.kind == "approval.resolved" && HasText(requestId) {
        openByRequestId := DeleteEntry(openByRequestId, requestId.value);
      } else if activity.kind == "provider.approval.respond.failed" && HasText(requestId)
                && IsStalePendingRequestFailureDetail(detail) {
        openByRequestId := DeleteEntry(openByRequestId, requestId.value);
      }
    }
    assert ordered[..|ordered|] == ordered;
    pending := ToSorted(Values(openByRequestId), ApprovalsByTime(collate));
  }

  method DerivePendingUserInputs(activities: seq<Activity>, collate: Collator) returns (pending: seq<PendingUserInput>)
    ensures pending == PendingUserInputs(activities, collate)
  {
    var openByRequestId: seq<(string, PendingUserInput)> := [];
    var ordered := Ordered(activities, collate);
    for i := 0 to |ordered|
      invariant openByRequestId == OpenRequests(ordered[..i], UserInputChange)
    {
      assert Front(ordered[..i + 1]) == ordered[..i] && Last(ordered[..i + 1]) == ordered[i];
      var activity := ordered[i];
      var requestId, detail := activity.payload.requestId, activity.payload.detail;
      if activity.kind == "user-input.requested" && HasText(requestId) {
        var questions := ParseUserInputQuestions(activity.payload);
        if questions.Some? {
          openByRequestId := SetEntry(openByRequestId, requestId.value,
            PendingUserInput(requestId.value, activity.createdAt, questions.value));
        }
      } else if activity.kind == "user-input.resolved" && HasText(requestId) {
        openByRequestId := DeleteEntry(openByRequestId, requestId.value);
      } else if activity.kind == "provider.user-input.respond.failed" && HasText(requestId)
                && IsStalePendingRequestFailureDetail(detail) {
        openByRequestId := DeleteEntry(openByRequestId, requestId.value);
      }
    }
    assert ordered[..|ordered|] == ordered;
    pending := ToSorted(Values(openByRequestId), UserInputsByTime(collate));
  }

  /** Both lists are the same for every arrival order of the log. */
  lemma ArrivalOrder(log: seq<Activity>, other: seq<Activity>, collate: Collator)
    requires TotalPreorder(collate) && IdsTellApart(log, collate) && multiset(log) == multiset(other)
    ensures PendingApprovals(log, collate) == PendingApprovals(other, collate)
    ensures PendingUserInputs(log, collate) == PendingUserInputs(other, collate)
  {
    ArrivalOrderIsIrrelevant(log, other, collate);
  }

  /** An activity only opens the request it names. */
  lemma OpensOwnId(a: Activity)
    ensures ApprovalChange(a).Opens? ==> ApprovalChange(a).request.requestId == ApprovalChange(a).requestId
    ensures UserInputChange(a).Opens? ==> UserInputChange(a).request.requestId == UserInputChange(a).requestId
  {
  }

  lemma {:induction false} ValuesAreLookups<V>(open: seq<(string, V)>, idOf: V -> string, request: V)
    requires DistinctKeys(open) && forall id | Lookup(open, id).Some? :: idOf(Lookup(open, id).value) == id
    ensures multiset(Values(open))[request] == if Lookup(open, idOf(request)) == Some(request) then 1 else 0
  {
    if open != [] {
      var (first, value) := open[0];
      assert Lookup(open, first) == Some(value);
      forall id | Lookup(open[1..], id).Some? ensures idOf(Lookup(open[1..], id).value) == id {
        assert id != first ==> Lookup(open, id) == Lookup(open[1..], id);
      }
      ValuesAreLookups(open[1..], idOf, request);
    }
  }

  lemma OpenIdsAreOwn(log: seq<Activity>, collate: Collator)
    ensures forall id | Lookup(OpenRequests(log, ApprovalChange), id).Some? ::
              Lookup(OpenRequests(log, ApprovalChange), id).value.requestId == id
    ensures forall id | Lookup(OpenRequests(log, UserInputChange), id).Some? ::
              Lookup(OpenRequests(log, UserInputChange), id).value.requestId == id
  {
    forall id | Lookup(OpenRequests(log, ApprovalChange), id).Some?
      ensures Lookup(OpenRequests(log, ApprovalChange), id).value.requestId == id
    {
      LookupIsLastMention(log, ApprovalChange, id);
      var i := LastMentionPosition(log, ApprovalChange, id);
      OpensOwnId(log[i]);
    }
    forall id | Lookup(OpenRequests(log, UserInputChange), id).Some?
      ensures Lookup(OpenRequests(log, UserInputChange), id).value.requestId == id
    {
      LookupIsLastMention(log, UserInputChange, id);
      var i := LastMentionPosition(log, UserInputChange, id);
      OpensOwnId(log[i]);
    }
  }

  lemma ListedApproval(log: seq<Activity>, request: PendingApproval, collate: Collator)
    requires TotalPreorder(collate) && IdsTellApart(log, collate)
    ensures request in PendingApprovals(log, collate) <==>
      exists a :: IsLastMention(log, ApprovalChange, request.requestId, a, collate)
               && ApprovalChange(a) == Opens(request.requestId, request)
    ensures multiset(PendingApprovals(log, collate))[request] <= 1
    ensures forall i, j | 0 <= i < j < |PendingApprovals(log, collate)| ::
      collate(PendingApprovals(log, collate)[i].createdAt, PendingApprovals(log, collate)[j].createdAt) <= 0
  {
    var ordered := Ordered(log, collate);
    var open := OpenRequests(ordered, ApprovalChange);
    OpenIdsAreOwn(ordered, collate);
    LookupIsLastMention(ordered, ApprovalChange, request.requestId);
    ValuesAreLookups(open, (r: PendingApproval) => r.requestId, request);
    OpenExactly(log, ApprovalChange, request.requestId, request, collate);
    ByTimeIsTotal((r: PendingApproval) => r.createdAt, collate);
    ToSortedFacts(Values(open), ApprovalsByTime(collate));
    assert request in PendingApprovals(log, collate) <==> request in multiset(PendingApprovals(log, collate));
  }

  ghost predicate ConcernsApproval(a: Activity, id: string) {
    ApprovalResolved(a, id) || exists request: PendingApproval :: request.requestId == id && ApprovalRequested(a, request)
  }

  /** `a` makes the request, and whatever else the log holds about it precedes `a`. */
  ghost predicate StillApproval(log: seq<Activity>, a: Activity, request: PendingApproval, collate: Collator) {
    && a in log && ApprovalRequested(a, request)
    && forall b | b in log && b != a && ConcernsApproval(b, request.requestId) :: Precedes(b, a, collate)
  }

  lemma ApprovalMentions(a: Activity, id: string)
    ensures Mentions(ApprovalChange(a), id) <==> ConcernsApproval(a, id)
  {
    hide ApprovalChange, ApprovalResolved, ApprovalRequested;
    ApprovalChangeExactly(a);
    if Mentions(ApprovalChange(a), id) && ApprovalChange(a).Opens? {
      assert ApprovalChange(a) == Opens(id, ApprovalChange(a).request);
    }
    if ConcernsApproval(a, id) && !ApprovalResolved(a, id) {
      var request: PendingApproval :| request.requestId == id && ApprovalRequested(a, request);
      assert ApprovalChange(a) == Opens(id, request);
    }
  }

  /** A pending approval is listed, once, exactly when an activity makes this request and everything else about it
   *  precedes that activity; the list is in the order of the times. */
  lemma PendingApprovalsExactly(log: seq<Activity>, request: PendingApproval, collate: Collator)
    requires TotalPreorder(collate) && IdsTellApart(log, collate)
    ensures request in PendingApprovals(log, collate) <==> exists a :: StillApproval(log, a, request, collate)
    ensures multiset(PendingApprovals(log, collate))[request] <= 1
    ensures forall i, j | 0 <= i < j < |PendingApprovals(log, collate)| ::
      collate(PendingApprovals(log, collate)[i].createdAt, PendingApprovals(log, collate)[j].createdAt) <= 0
  {
    hide ApprovalChange, ApprovalResolved, ApprovalRequested, ConcernsApproval, Precedes, PendingApprovals;
    ListedApproval(log, request, collate);
    forall a ensures StillApproval(log, a, request, collate) <==>
      IsLastMention(log, ApprovalChange, request.requestId, a, collate) && ApprovalChange(a) == Opens(request.requestId, request)
    {
      ApprovalChangeExactly(a);
      ApprovalMentions(a, request.requestId);
      assert ApprovalChange(a) == Opens(request.requestId, request) <==> ApprovalRequested(a, request);
      forall b ensures Mentions(ApprovalChange(b), request.requestId) <==> ConcernsApproval(b, request.requestId) {
        ApprovalMentions(b, request.requestId);
      }
    }
  }

  lemma ListedUserInput(log: seq<Activity>, request: PendingUserInput, collate: Collator)
    requires TotalPreorder(collate) && IdsTellApart(log, collate)
    ensures request in PendingUserInputs(log, collate) <==>
      exists a :: IsLastMention(log, UserInputChange, request.requestId, a, collate)
               && UserInputChange(a) == Opens(request.requestId, request)
    ensures multiset(PendingUserInputs(log, collate))[request] <= 1
    ensures forall i, j | 0 <= i < j < |PendingUserInputs(log, collate)| ::
      collate(PendingUserInputs(log, collate)[i].createdAt, PendingUserInputs(log, collate)[j].createdAt) <= 0
  {
    var ordered := Ordered(log, collate);
    var open := OpenRequests(ordered, UserInputChange);
    OpenIdsAreOwn(ordered, collate);
    LookupIsLastMention(ordered, UserInputChange, request.requestId);
    ValuesAreLookups(open, (r: PendingUserInput) => r.requestId, request);
    OpenExactly(log, UserInputChange, request.requestId, request, collate);
    ByTimeIsTotal((r: PendingUserInput) => r.createdAt, collate);
    ToSortedFacts(Values(open), UserInputsByTime(collate));
    assert request in PendingUserInputs(log, collate) <==> request in multiset(PendingUserInputs(log, collate));
  }

  ghost predicate ConcernsUserInput(a: Activity, id: string) {
    UserInputResolved(a, id) || exists request: PendingUserInput :: request.requestId == id && UserInputRequested(a, request)
  }

  /** `a` makes the request, and whatever else the log holds about it precedes `a`. */
  ghost predicate StillUserInput(log: seq<Activity>, a: Activity, request: PendingUserInput, collate: Collator) {
    && a in log && UserInputRequested(a, request)
    && forall b | b in log && b != a && ConcernsUserInput(b, request.requestId) :: Precedes(b, a, collate)
  }

  lemma UserInputMentions(a: Activity, id: string)
    ensures Mentions(UserInputChange(a), id) <==> ConcernsUserInput(a, id)
  {
    hide UserInputChange, UserInputResolved, UserInputRequested;
    UserInputChangeExactly(a);
    if Mentions(UserInputChange(a), id) && UserInputChange(a).Opens? {
      assert UserInputChange(a) == Opens(id, UserInputChange(a).request);
    }
    if ConcernsUserInput(a, id) && !UserInputResolved(a, id) {
      var request: PendingUserInput :| request.requestId == id && UserInputRequested(a, request);
      assert UserInputChange(a) == Opens(id, request);
    }
  }

  /** The same for user inputs. */
  lemma PendingUserInputsExactly(log: seq<Activity>, request: PendingUserInput, collate: Collator)
    requires TotalPreorder(collate) && IdsTellApart(log, collate)
    ensures request in PendingUserInputs(log, collate) <==> exists a :: StillUserInput(log, a, request, collate)
    ensures multiset(PendingUserInputs(log, collate))[request] <= 1
    ensures forall i, j | 0 <= i < j < |PendingUserInputs(log, collate)| ::
      collate(PendingUserInputs(log, collate)[i].createdAt, PendingUserInputs(log, collate)[j].createdAt) <= 0
  {
    hide UserInputChange, UserInputResolved, UserInputRequested, ConcernsUserInput, Precedes, PendingUserInputs;
    ListedUserInput(log, request, collate);
    forall a ensures StillUserInput(log, a, request, collate) <==>
      IsLastMention(log, UserInputChange, request.requestId, a, collate) && UserInputChange(a) == Opens(request.requestId, request)
    {
      UserInputChangeExactly(a);
      UserInputMentions(a, request.requestId);
      assert UserInputChange(a) == Opens(request.requestId, request) <==> UserInputRequested(a, request);
      forall b ensures Mentions(UserInputChange(b), request.requestId) <==> ConcernsUserInput(b, request.requestId) {
        UserInputMentions(b, request.requestId);
      }
    }
  }

  /** Resolved at a later sequence number than every request for it: no longer pending. */
  lemma ResolvedIsNotPending(log: seq<Activity>, resolved: Activity, request: PendingApproval, collate: Collator)
    requires TotalPreorder(collate) && IdsTellApart(log, collate)
    requires resolved in log && resolved.sequence.Some? && ApprovalResolved(resolved, request.requestId)
    requires forall a | a in log && ApprovalRequested(a, request) ::
      a.sequence.None? || a.sequence.value < resolved.sequence.value
    ensures request !in PendingApprovals(log, collate)
  {
    hide PendingApprovals;
    PendingApprovalsExactly(log, request, collate);
  }

  lemma ByTimeIsTotal<V(!new)>(timeOf: V -> string, collate: Collator)
    requires TotalPreorder(collate)
    ensures TotalPreorder(ByTime(timeOf, collate))
  {
  }

  /** A request is pending exactly when some activity opens it and nothing later resolves it or finds it stale. */
  lemma PendingExactlyWhenOpen<V>(log: seq<Activity>, read: Activity -> Change<V>, id: string, collate: Collator)
    requires TotalPreorder(collate) && IdsTellApart(log, collate)
    ensures Lookup(OpenRequests(Ordered(log, collate), read), id).Some? <==>
      exists a :: && a in log && read(a).Opens? && read(a).requestId == id
        && forall b | b in log && read(b).Closes? && read(b).requestId == id :: Precedes(b, a, collate)
  {
    hide Precedes, OpenRequests, LastMention, Lookup, Ordered;
    LookupIsLastMention(Ordered(log, collate), read, id);
    LastMentionOfLog(log, read, id, collate);
    var found := LastMention(Ordered(log, collate), read, id);
    if found.Some? {
      var last := found.value;
      forall a | a in log && read(a).Opens? && read(a).requestId == id && read(last).Closes?
        ensures !Precedes(last, a, collate)
      {
        PrecedesOneWay(a, last, collate);
      }
      if read(last).Opens? {
        forall b | b in log && read(b).Closes? && read(b).requestId == id ensures Precedes(b, last, collate) {
          assert Mentions(read(b), id) && b != last;
        }
      }
    }
  }
}
