/**
 * The history of one Codex app-server session: the requests the manager sent and how their
 * promises settled, and the server's requests and how they were answered. Lawful histories keep
 * local rules, from which the whole-run properties follow.
 */
module CodexHistory {
  import opened Wrappers
  import opened RequestKinds

  datatype JsonId = Number(n: int) | Text(s: string)

  /** How a server request is to be answered. */
  datatype Expected = Approval(kind: RequestKind) | UserInput | Unsupported

  datatype Reply = Decision(decision: string) | Answers(answers: string) | Error(code: int)

  datatype Outcome = Resolved | Failed | TimedOut | Stopped | NotWritten

  datatype Entry =
    | Sent(id: nat)
    | Settled(id: nat, outcome: Outcome)
    | Released(id: nat)  // the pending entry of a promise already rejected goes
    | Received(name: string, jsonRpcId: JsonId, expected: Expected)
    | Replied(name: string, jsonRpcId: JsonId, reply: Reply)
    | Dropped(name: string)  // never to be answered

  /** Oldest entry first: Then(h, e) is h followed by e. */
  datatype History = Start | Then(before: History, last: Entry)

  function Entries(h: History): seq<Entry> {
    match h
    case Start => []
    case Then(b, e) => Entries(b) + [e]
  }

  // ----- What a history determines --------------------------------------------------------

  function SentCount(h: History): nat {
    match h
    case Start => 0
    case Then(b, e) => if e.Sent? then SentCount(b) + 1 else SentCount(b)
  }

  function SettledIds(h: History): set<nat> {
    match h
    case Start => {}
    case Then(b, e) => if e.Settled? then SettledIds(b) + {e.id} else SettledIds(b)
  }

  /** Requests sent and not settled. */
  function Outstanding(h: History): set<nat> {
    match h
    case Start => {}
    case Then(b, Sent(id)) => Outstanding(b) + {id}
    case Then(b, Settled(id, _)) => Outstanding(b) - {id}
    case Then(b, _) => Outstanding(b)
  }

  /** Requests rejected because the write failed, and still registered. */
  function Orphans(h: History): set<nat> {
    match h
    case Start => {}
    case Then(b, Settled(id, NotWritten)) => Orphans(b) + {id}
    case Then(b, Released(id)) => Orphans(b) - {id}
    case Then(b, _) => Orphans(b)
  }

  /** Server requests neither answered nor dropped. */
  function Unanswered(h: History): map<string, (JsonId, Expected)> {
    match h
    case Start => map[]
    case Then(b, Received(name, id, expected)) => Unanswered(b)[name := (id, expected)]
    case Then(b, Replied(name, _, _)) => Unanswered(b) - {name}
    case Then(b, Dropped(name)) => Unanswered(b) - {name}
    case Then(b, _) => Unanswered(b)
  }

  function OutcomeOf(h: History, id: nat): Option<Outcome> {
    match h
    case Start => None
    case Then(b, e) => if e.Settled? && e.id == id then Some(e.outcome) else OutcomeOf(b, id)
  }

  /** The entry that answered or dropped the server request `name`. */
  function EndOf(h: History, name: string): Option<Entry> {
    match h
    case Start => None
    case Then(b, e) => if (e.Replied? || e.Dropped?) && e.name == name then Some(e) else EndOf(b, name)
  }

  function Names(h: History): set<string> {
    match h
    case Start => {}
    case Then(b, e) => if e.Received? then Names(b) + {e.name} else Names(b)
  }

  // ----- Lawful histories -------------------------------------------------------------------

  /** The reply fits the request; an unsupported one is answered at once with -32601. */
  predicate Fits(h: History, name: string, expected: Expected, reply: Reply) {
    match expected
    case Approval(_) => reply.Decision?
    case UserInput => reply.Answers?
    case Unsupported => reply == Error(-32601) && h.Then? && h.last.Received? && h.last.name == name
  }

  predicate MayFollow(h: History, e: Entry) {
    && (UnsupportedWaits(h) ==> (e.Replied? || e.Dropped?) && e.name == h.last.name)
    && match e
       case Sent(id) => id == SentCount(h) + 1
       case Settled(id, o) => id in Outstanding(h) && (o == NotWritten ==> h.Then? && h.last == Sent(id))
       case Released(id) => id in Orphans(h)
       case Received(name, _, _) => name !in Names(h)
       case Replied(name, id, reply) =>
         name in Unanswered(h) && Unanswered(h)[name].0 == id && Fits(h, name, Unanswered(h)[name].1, reply)
       case Dropped(name) => name in Unanswered(h)
  }

  /** An unsupported request has just come in: it is dealt with before anything else happens. */
  predicate UnsupportedWaits(h: History) {
    h.Then? && h.last.Received? && h.last.expected == Unsupported
  }

  predicate Lawful(h: History) {
    match h
    case Start => true
    case Then(b, e) => Lawful(b) && MayFollow(b, e)
  }

  /**
   * The ids sent so far are the disjoint union of outstanding and settled ones; only settled
   * requests are orphans; unanswered requests have been received; and of the unsupported ones
   * only one just received is unanswered.
   */
  lemma {:induction false} Conservation(h: History)
    requires Lawful(h)
    ensures forall id :: id in Outstanding(h) || id in SettledIds(h) <==> 1 <= id <= SentCount(h)
    ensures Outstanding(h) !! SettledIds(h)
    ensures Orphans(h) <= SettledIds(h)
    ensures Unanswered(h).Keys <= Names(h)
    ensures forall name | name in Unanswered(h) && Unanswered(h)[name].1 == Unsupported ::
              UnsupportedWaits(h) && h.last.name == name
  {
    match h
    case Start =>
    case Then(b, e) => Conservation(b);
  }

  /**
   * Over a whole run: ids are sent in the order 1, 2, 3, .. before anything else happens to them,
   * each promise settles once, each server request comes before its answer, and none is answered
   * twice or answered after having been dropped.
   */
  lemma {:induction false} WholeRun(h: History, i: nat, j: nat)
    requires Lawful(h) && i < j < |Entries(h)|
    ensures var first, second := Entries(h)[i], Entries(h)[j];
      && (second.Sent? && (first.Sent? || first.Settled? || first.Released?) ==> first.id < second.id)
      && (first.Settled? && second.Settled? ==> first.id != second.id)
      && (second.Received? && (first.Received? || first.Replied? || first.Dropped?) ==> first.name != second.name)
      && ((first.Replied? || first.Dropped?) && (second.Replied? || second.Dropped?) ==> first.name != second.name)
  {
    if j < |Entries(h.before)| {
      WholeRun(h.before, i, j);
    } else {
      Bounds(h.before, i);
      Conservation(h.before);
    }
  }

  lemma {:induction false} Bounds(h: History, i: nat)
    requires Lawful(h) && i < |Entries(h)|
    ensures var e := Entries(h)[i];
      && (e.Sent? || e.Settled? || e.Released? ==> 1 <= e.id <= SentCount(h))
      && (e.Settled? ==> e.id in SettledIds(h))
      && (e.Received? || e.Replied? || e.Dropped? ==> e.name in Names(h))
      && (e.Replied? || e.Dropped? ==> e.name !in Unanswered(h))
  {
    Conservation(h);
    Conservation(h.before);
    if i < |Entries(h.before)| {
      Bounds(h.before, i);
    }
  }

  /** Every reply carries the id of the one request it answers, in the form that request calls for. */
  lemma {:induction false} ReplyMatches(h: History, j: nat) returns (i: nat)
    requires Lawful(h) && j < |Entries(h)| && Entries(h)[j].Replied?
    ensures i < j && Entries(h)[i].Received?
    ensures var request, answer := Entries(h)[i], Entries(h)[j];
      && request.name == answer.name && request.jsonRpcId == answer.jsonRpcId
      && (request.expected.Approval? <==> answer.reply.Decision?)
      && (request.expected == UserInput <==> answer.reply.Answers?)
      && (request.expected == Unsupported <==> answer.reply == Error(-32601) && i == j - 1)
  {
    if j < |Entries(h.before)| {
      i := ReplyMatches(h.before, j);
    } else {
      var name := h.last.name;
      i := Origin(h.before, name);
      if Unanswered(h.before)[name].1 == Unsupported {
        assert Entries(h.before)[|Entries(h.before)| - 1] == h.before.last;
        if i < |Entries(h.before)| - 1 {
          WholeRun(h.before, i, |Entries(h.before)| - 1);
        }
      }
    }
  }

  lemma {:induction false} Origin(h: History, name: string) returns (i: nat)
    requires Lawful(h) && name in Unanswered(h)
    ensures i < |Entries(h)| && Entries(h)[i] == Received(name, Unanswered(h)[name].0, Unanswered(h)[name].1)
  {
    if h.last.Received? && h.last.name == name {
      i := |Entries(h)| - 1;
    } else {
      i := Origin(h.before, name);
    }
  }

  lemma {:induction false} OrphansAreUnwritten(h: History)
    requires Lawful(h)
    ensures forall id | id in Orphans(h) :: OutcomeOf(h, id) == Some(NotWritten)
  {
    match h
    case Start =>
    case Then(b, e) =>
      OrphansAreUnwritten(b);
      Conservation(b);
  }

  /** A server request has been answered or dropped exactly when it is no longer unanswered. */
  lemma {:induction false} EndedExactly(h: History)
    requires Lawful(h)
    ensures forall name | name in Names(h) :: EndOf(h, name).Some? <==> name !in Unanswered(h)
    ensures forall name | name !in Names(h) :: EndOf(h, name).None?
  {
    match h
    case Start =>
    case Then(b, e) =>
      EndedExactly(b);
      Conservation(b);
  }
}
