/**
 * The history a transport leaves behind: one entry per promise handed out, per id written
 * to a socket, and per promise settled. Lawful histories keep three local rules, and from
 * those the whole-run properties follow.
 */
module WsHistory {

  datatype Outcome =
    | Resolved | RejectedByServer | TimedOut | ConnectionClosed | ReconnectCancelled | TransportDisposed

  datatype Entry = Issued(id: nat, timed: bool) | Written(id: nat) | Settled(id: nat, outcome: Outcome)

  /** Oldest entry first: Then(h, e) is h followed by e. */
  datatype History = Start | Then(before: History, last: Entry)

  function Entries(h: History): seq<Entry> {
    match h
    case Start => []
    case Then(b, e) => Entries(b) + [e]
  }

  // ----- What a history determines --------------------------------------------

  function IssuedCount(h: History): nat {
    match h
    case Start => 0
    case Then(b, e) => IssuedCount(b) + if e.Issued? then 1 else 0
  }

  function LastWritten(h: History): nat {
    match h
    case Start => 0
    case Then(b, e) => if e.Written? then e.id else LastWritten(b)
  }

  function SettledIds(h: History): set<nat> {
    match h
    case Start => {}
    case Then(b, e) => SettledIds(b) + if e.Settled? then {e.id} else {}
  }

  /** Requests handed out and not settled, with whether each has a timeout. */
  function Outstanding(h: History): map<nat, bool> {
    match h
    case Start => map[]
    case Then(b, Issued(id, timed)) => Outstanding(b)[id := timed]
    case Then(b, Written(_)) => Outstanding(b)
    case Then(b, Settled(id, _)) => Outstanding(b) - {id}
  }

  /** Timers set for requests and neither fired nor cleared. */
  function LiveTimers(h: History): set<nat> {
    match h
    case Start => {}
    case Then(b, Issued(id, timed)) => LiveTimers(b) + if timed then {id} else {}
    case Then(b, Written(_)) => LiveTimers(b)
    case Then(b, Settled(id, _)) => LiveTimers(b) - {id}
  }

  /** Requests handed out and neither written nor settled, in the order they were issued. */
  function Unwritten(h: History): seq<nat> {
    match h
    case Start => []
    case Then(b, Issued(id, _)) => Unwritten(b) + [id]
    case Then(b, Written(id)) => Without(Unwritten(b), id)
    case Then(b, Settled(id, _)) => Without(Unwritten(b), id)
  }

  function Without(ids: seq<nat>, id: nat): seq<nat> {
    if ids == [] then []
    else if ids[0] == id then ids[1..]
    else [ids[0]] + Without(ids[1..], id)
  }

  // ----- Lawful histories -------------------------------------------------------

  /** Ids are issued one by one, the oldest unwritten request is written first, and only outstanding ones settle. */
  predicate MayFollow(h: History, e: Entry) {
    match e
    case Issued(id, _) => id == IssuedCount(h) + 1
    case Written(id) => Unwritten(h) != [] && id == Unwritten(h)[0]
    case Settled(id, _) => id in Outstanding(h)
  }

  predicate Lawful(h: History) {
    match h
    case Start => true
    case Then(b, e) => Lawful(b) && MayFollow(b, e)
  }

  predicate Ascending(ids: seq<nat>) {
    forall i, j | 0 <= i < j < |ids| :: ids[i] < ids[j]
  }

  lemma AscendingRest(ids: seq<nat>)
    requires Ascending(ids) && ids != []
    ensures Ascending(ids[1..]) && forall q | q in ids[1..] :: ids[0] < q
  {
  }

  lemma AscendingMore(id: nat, ids: seq<nat>)
    requires Ascending(ids) && forall q | q in ids :: id < q
    ensures Ascending([id] + ids)
  {
    assert forall k | 0 <= k < |ids| :: ids[k] in ids;
  }

  lemma {:induction false} WithoutFacts(ids: seq<nat>, id: nat)
    requires Ascending(ids)
    ensures Ascending(Without(ids, id))
    ensures forall q :: q in Without(ids, id) <==> q in ids && q != id
  {
    if ids != [] {
      AscendingRest(ids);
      WithoutFacts(ids[1..], id);
      if ids[0] != id {
        AscendingMore(ids[0], Without(ids[1..], id));
      }
      assert ids == [ids[0]] + ids[1..];
    }
  }

  lemma {:induction false} WithoutAbsent(ids: seq<nat>, id: nat)
    requires id !in ids
    ensures Without(ids, id) == ids
  {
    if ids != [] {
      WithoutAbsent(ids[1..], id);
    }
  }

  lemma WithoutOther(first: nat, rest: seq<nat>, id: nat)
    requires first != id
    ensures Without([first] + rest, id) == [first] + Without(rest, id)
  {
    assert ([first] + rest)[1..] == rest;
  }

  lemma {:induction false} WithoutBehind(front: seq<nat>, ids: seq<nat>, id: nat)
    requires id !in front
    ensures Without(front + ids, id) == front + Without(ids, id)
  {
    hide Without;
    if front == [] {
      assert front + ids == ids;
    } else {
      WithoutBehind(front[1..], ids, id);
      WithoutOther(front[0], front[1..] + ids, id);
      assert front == [front[0]] + front[1..] && front + ids == [front[0]] + (front[1..] + ids);
    }
  }

  lemma WithoutFirst(ids: seq<nat>)
    requires ids != []
    ensures Without(ids, ids[0]) == ids[1..]
  {
  }

  /**
   * The ids issued so far are the disjoint union of outstanding and settled ids; the unwritten
   * ones are outstanding, ascending and above everything written; the live timers are exactly
   * those of outstanding requests that have one.
   */
  lemma {:induction false} Conservation(h: History)
    requires Lawful(h)
    ensures forall id :: id in Outstanding(h) || id in SettledIds(h) <==> 1 <= id <= IssuedCount(h)
    ensures Outstanding(h).Keys !! SettledIds(h)
    ensures Ascending(Unwritten(h)) && LastWritten(h) <= IssuedCount(h)
    ensures forall id | id in Unwritten(h) :: id in Outstanding(h) && LastWritten(h) < id
    ensures forall id :: id in LiveTimers(h) <==> id in Outstanding(h) && Outstanding(h)[id]
  {
    hide Without;
    match h
    case Start =>
    case Then(b, Issued(id, _)) =>
      Conservation(b);
      forall i | 0 <= i < |Unwritten(b)| ensures Unwritten(b)[i] < id {
        assert Unwritten(b)[i] in Unwritten(b) && Unwritten(b)[i] in Outstanding(b);
      }
    case Then(b, Written(id)) =>
      Conservation(b);
      WithoutFirst(Unwritten(b));
      assert id in Unwritten(b) && forall q | q in Unwritten(b)[1..] :: id < q && q in Unwritten(b);
    case Then(b, Settled(id, _)) =>
      Conservation(b);
      WithoutFacts(Unwritten(b), id);
  }

  /**
   * Over a whole run: ids are issued in the order 1, 2, 3, .. before anything else happens to
   * them; the ids written are strictly increasing, so none is written twice; and nothing is
   * written or settled once it has been settled.
   */
  lemma {:induction false} WholeRun(h: History, i: nat, j: nat)
    requires Lawful(h) && i < j < |Entries(h)|
    ensures var first, second := Entries(h)[i], Entries(h)[j];
      && (second.Issued? ==> first.id < second.id)
      && (first.Written? && second.Written? ==> first.id < second.id)
      && (first.Settled? && !second.Issued? ==> first.id != second.id)
  {
    if j < |Entries(h.before)| {
      WholeRun(h.before, i, j);
    } else {
      Bounds(h.before, i);
      Conservation(h.before);
      assert h.last.Written? ==> h.last.id in Unwritten(h.before);
    }
  }

  lemma {:induction false} Bounds(h: History, i: nat)
    requires Lawful(h) && i < |Entries(h)|
    ensures var e := Entries(h)[i];
      && 1 <= e.id <= IssuedCount(h)
      && (e.Written? ==> e.id <= LastWritten(h))
      && (e.Settled? ==> e.id in SettledIds(h))
  {
    Conservation(h);
    Conservation(h.before);
    assert h.last.Written? ==> h.last.id in Unwritten(h.before);
    if i < |Entries(h.before)| {
      Bounds(h.before, i);
    }
  }

  // ----- Runs of entries ----------------------------------------------------------

  /** `h` followed by writing `ids` in order. */
  function Writing(h: History, ids: seq<nat>): History
    decreases |ids|
  {
    if ids == [] then h else Writing(Then(h, Written(ids[0])), ids[1..])
  }

  /** `after` continues `h` by settling exactly `ids`, each once, all with the same outcome. */
  predicate SettlesAll(h: History, after: History, ids: set<nat>, o: Outcome)
    decreases after
  {
    if ids == {} then after == h else
    && after.Then? && after.last.Settled? && after.last.outcome == o && after.last.id in ids
    && SettlesAll(h, after.before, ids - {after.last.id}, o)
  }

  lemma NoElements(ids: seq<nat>)
    ensures (forall id :: id !in ids) ==> ids == []
  {
    if ids != [] {
      assert ids[0] in ids;
    }
  }

  /** Once nothing is outstanding, nothing waits to be written and no timer is live. */
  lemma NothingLeft(h: History)
    requires Lawful(h) && Outstanding(h) == map[]
    ensures Unwritten(h) == [] && LiveTimers(h) == {}
  {
    Conservation(h);
    NoElements(Unwritten(h));
  }

  /** The timer of a request is only live while the request is outstanding. */
  lemma TimeoutIsOutstanding(h: History, id: nat)
    requires Lawful(h) && id in LiveTimers(h)
    ensures id in Outstanding(h)
  {
  }

  /** When every outstanding request is unwritten, settling one of them keeps that so. */
  lemma StillQueued(h: History, id: nat)
    requires Lawful(h) && forall q | q in Outstanding(h) :: q in Unwritten(h)
    ensures forall q | q in Outstanding(h) - {id} :: q in Without(Unwritten(h), id)
  {
    Conservation(h);
    WithoutFacts(Unwritten(h), id);
  }
}
