/**
 * The client-side queue of messages waiting for a thread's turn to end. Every operation but
 * enqueue and move rewrites or drops entries one by one and never changes an entry's ids, so
 * they share one set of lemmas about Rewritten.
 */
module MessageQueue {
  import opened Wrappers

  type Id = string

  const QUEUED_SEND_STUCK_DISPATCH_MS := 120_000

  datatype Status = Queued | Dispatching

  /** `payload` stands for mentions, attachments, creation time and dispatch settings: no operation looks at them. */
  datatype Message = Message(threadId: Id, messageId: Id, text: string, payload: string,
                             status: Status, dispatchedAt: Option<int>, turnRunningSeen: bool)

  datatype Observation = Observation(userMessagePersisted: bool, turnRunning: bool, assistantReplyPersisted: bool)

  datatype Transition = Complete | Lost | InFlight

  datatype Decision = BlockDispatching | BlockBackoff(retryInMs: int) | Dispatch(head: Message) | Idle

  // ----- Queue operations -----------------------------------------------------------

  function CreateQueuedMessage(threadId: Id, messageId: Id, text: string, payload: string): Message {
    Message(threadId, messageId, text, payload, Queued, None, false)
  }

  /** Each entry replaced by what `f` makes of it, or dropped. */
  function Rewritten(queue: seq<Message>, f: Message -> Option<Message>): seq<Message> {
    if queue == [] then []
    else (match f(queue[0]) case Some(m) => [m] case None => []) + Rewritten(queue[1..], f)
  }

  function EnqueueMessage(queue: seq<Message>, message: Message): seq<Message> {
    queue + [message]
  }

  function Removal(messageId: Id): Message -> Option<Message> {
    (m: Message) => if m.messageId == messageId then None else Some(m)
  }

  function RemoveQueuedMessage(queue: seq<Message>, messageId: Id): seq<Message> {
    Rewritten(queue, Removal(messageId))
  }

  function Editing(messageId: Id, text: string): Message -> Option<Message> {
    (m: Message) => Some(if m.messageId == messageId then m.(text := text) else m)
  }

  function EditQueuedMessage(queue: seq<Message>, messageId: Id, text: string): seq<Message> {
    Rewritten(queue, Editing(messageId, text))
  }

  function Marking(messageId: Id, now: int): Message -> Option<Message> {
    (m: Message) => Some(if m.messageId == messageId
      then m.(status := Dispatching, dispatchedAt := Some(now), turnRunningSeen := false) else m)
  }

  function MarkQueuedHeadDispatching(queue: seq<Message>, messageId: Id, now: int): seq<Message> {
    Rewritten(queue, Marking(messageId, now))
  }

  function Requeued(m: Message): Message {
    m.(status := Queued, dispatchedAt := None, turnRunningSeen := false)
  }

  function Requeueing(messageId: Id): Message -> Option<Message> {
    (m: Message) => Some(if m.messageId == messageId then Requeued(m) else m)
  }

  function RequeueDispatchingHead(queue: seq<Message>, messageId: Id): seq<Message> {
    Rewritten(queue, Requeueing(messageId))
  }

  function FindIndex(queue: seq<Message>, messageId: Id): (index: int)
    ensures -1 <= index < |queue| && (index >= 0 ==> queue[index].messageId == messageId)
  {
    if queue == [] then -1
    else if queue[0].messageId == messageId then 0
    else var rest := FindIndex(queue[1..], messageId); if rest < 0 then -1 else rest + 1
  }

  function MoveQueuedMessage(queue: seq<Message>, messageId: Id, earlier: bool): seq<Message> {
    var index := FindIndex(queue, messageId);
    var target := if earlier then index - 1 else index + 1;
    if index < 0 || target < 0 || target >= |queue| then queue
    else
      var rest := queue[..index] + queue[index + 1..];
      rest[..target] + [queue[index]] + rest[target..]
  }

  function QueueMessagesForThread(queue: seq<Message>, threadId: Id): seq<Message> {
    if queue == [] then []
    else (if queue[0].threadId == threadId then [queue[0]] else []) + QueueMessagesForThread(queue[1..], threadId)
  }

  // ----- Decisions --------------------------------------------------------------------

  /** No entry is dispatching. */
  predicate Calm(queue: seq<Message>) {
    queue == [] || (queue[0].status.Queued? && Calm(queue[1..]))
  }

  function FirstQueued(queue: seq<Message>): (head: Option<Message>)
    ensures Calm(queue) && queue != [] ==> head == Some(queue[0])
  {
    if queue == [] then None
    else if queue[0].status.Queued? then Some(queue[0])
    else FirstQueued(queue[1..])
  }

  /** When the message may be sent: at the retry time noted for it, or now. */
  function RetryTime(m: Message, nextRetryAt: map<Id, int>, now: int): int {
    if m.messageId in nextRetryAt then nextRetryAt[m.messageId] else now
  }

  lemma {:induction false} CalmExactly(queue: seq<Message>)
    ensures Calm(queue) <==> !exists m :: m in queue && m.status.Dispatching?
  {
    if queue != [] {
      CalmExactly(queue[1..]);
      assert forall m :: m in queue <==> m == queue[0] || m in queue[1..];
    }
  }

  function ResolveQueuePumpDecision(threadId: Id, queue: seq<Message>, threadIsRunning: bool,
                                    nextRetryAt: map<Id, int>, now: int): (decision: Decision)
    ensures var waiting := QueueMessagesForThread(queue, threadId);
      && (decision.Idle? <==> threadIsRunning || waiting == [])
      && (decision.BlockDispatching? <==> !threadIsRunning && exists m :: m in waiting && m.status.Dispatching?)
      && (decision.Dispatch? || decision.BlockBackoff? ==> waiting != [])
      && (decision.Dispatch? ==> decision.head == waiting[0] && RetryTime(waiting[0], nextRetryAt, now) <= now)
      && (decision.BlockBackoff? ==>
            decision.retryInMs == RetryTime(waiting[0], nextRetryAt, now) - now && decision.retryInMs > 0)
  {
    var waiting := QueueMessagesForThread(queue, threadId);
    CalmExactly(waiting);
    if threadIsRunning then Idle
    else if !Calm(waiting) then BlockDispatching
    else match FirstQueued(waiting)
      case None => Idle
      case Some(head) =>
        if head.messageId in nextRetryAt && now < nextRetryAt[head.messageId]
        then BlockBackoff(nextRetryAt[head.messageId] - now)
        else Dispatch(head)
  }

  function ResolveDispatchingTransition(dispatchedAt: int, turnRunningSeen: bool, o: Observation, now: int): Transition {
    var turnHasRun := turnRunningSeen || o.assistantReplyPersisted;
    if o.userMessagePersisted && !o.turnRunning && turnHasRun then Complete
    else if o.turnRunning then InFlight
    else if dispatchedAt + QUEUED_SEND_STUCK_DISPATCH_MS <= now && !turnHasRun then Lost
    else InFlight
  }

  /** One entry of the reconcile pass; a message without an observation is one whose thread is not known. */
  function Reconciling(now: int, observed: map<Id, Observation>): Message -> Option<Message> {
    (m: Message) =>
      if m.status.Queued? || m.messageId !in observed then Some(m)
      else
        var o := observed[m.messageId];
        var dispatchedAt := match m.dispatchedAt case Some(at) => at case None => now;
        var seen := m.turnRunningSeen || o.turnRunning;
        match ResolveDispatchingTransition(dispatchedAt, seen, o, now)
        case Complete => None
        case Lost => Some(Requeued(m))
        case InFlight => Some(m.(turnRunningSeen := seen))
  }

  // ----- Runs ---------------------------------------------------------------------------

  datatype Event =
    | Enqueued(message: Message)
    | Edited(messageId: Id, text: string)
    | Moved(messageId: Id, earlier: bool)
    | Removed(messageId: Id)
    | Pumped(threadId: Id, threadIsRunning: bool, nextRetryAt: map<Id, int>, now: int)
    | SendFailed(messageId: Id)
    | Reconciled(now: int, observed: map<Id, Observation>)

  /** Oldest event first: Then(h, e) is h followed by e. */
  datatype History = Start | Then(before: History, last: Event)

  function Apply(queue: seq<Message>, e: Event): seq<Message> {
    match e
    case Enqueued(message) => EnqueueMessage(queue, message)
    case Edited(id, text) => EditQueuedMessage(queue, id, text)
    case Moved(id, earlier) => MoveQueuedMessage(queue, id, earlier)
    case Removed(id) => RemoveQueuedMessage(queue, id)
    case Pumped(threadId, running, nextRetryAt, now) =>
      var decision := ResolveQueuePumpDecision(threadId, queue, running, nextRetryAt, now);
      if decision.Dispatch? then MarkQueuedHeadDispatching(queue, decision.head.messageId, now) else queue
    case SendFailed(id) => RequeueDispatchingHead(queue, id)
    case Reconciled(now, observed) => Rewritten(queue, Reconciling(now, observed))
  }

  function Queue(h: History): seq<Message> {
    match h
    case Start => []
    case Then(b, e) => Apply(Queue(b), e)
  }

  /** New messages come from CreateQueuedMessage, with an id never used before. */
  predicate Legal(h: History) {
    match h
    case Start => true
    case Then(b, Enqueued(m)) =>
      Legal(b) && m.messageId !in EnqueuedIds(b) && m == CreateQueuedMessage(m.threadId, m.messageId, m.text, m.payload)
    case Then(b, _) => Legal(b)
  }

  function Ids(queue: seq<Message>): set<Id> {
    if queue == [] then {} else {queue[0].messageId} + Ids(queue[1..])
  }

  function EnqueuedIds(h: History): set<Id> {
    match h
    case Start => {}
    case Then(b, Enqueued(m)) => EnqueuedIds(b) + {m.messageId}
    case Then(b, _) => EnqueuedIds(b)
  }

  /** The messages an event takes out of the queue. */
  function Departed(queue: seq<Message>, e: Event): set<Id> {
    match e
    case Removed(id) => {id} * Ids(queue)
    case Reconciled(now, observed) => Dropped(queue, Reconciling(now, observed))
    case _ => {}
  }

  /** Messages the user took out of the queue. */
  function RemovedIds(h: History): set<Id> {
    match h
    case Start => {}
    case Then(b, e) => if e.Removed? then RemovedIds(b) + Departed(Queue(b), e) else RemovedIds(b)
  }

  /** Messages a reconcile pass found complete. */
  function CompletedIds(h: History): set<Id> {
    match h
    case Start => {}
    case Then(b, e) => if e.Reconciled? then CompletedIds(b) + Departed(Queue(b), e) else CompletedIds(b)
  }

  function Dropped(queue: seq<Message>, f: Message -> Option<Message>): set<Id> {
    if queue == [] then {}
    else (if f(queue[0]).None? then {queue[0].messageId} else {}) + Dropped(queue[1..], f)
  }

  // ----- Rewriting entries ----------------------------------------------------------------

  ghost predicate KeepsIds(f: Message -> Option<Message>) {
    forall m :: f(m).Some? ==> f(m).value.messageId == m.messageId && f(m).value.threadId == m.threadId
  }

  /** Besides, `f` makes no entry dispatching. */
  ghost predicate Settles(f: Message -> Option<Message>) {
    KeepsIds(f) && forall m :: f(m).Some? && m.status.Queued? ==> f(m).value.status.Queued?
  }

  predicate Distinct(queue: seq<Message>) {
    queue == [] || (queue[0].messageId !in Ids(queue[1..]) && Distinct(queue[1..]))
  }

  /** Of one thread's entries at most one is dispatching. */
  predicate AtMostOne(queue: seq<Message>) {
    queue == [] || if queue[0].status.Queued? then AtMostOne(queue[1..]) else Calm(queue[1..])
  }

  lemma {:induction false} CalmIsAtMostOne(queue: seq<Message>)
    requires Calm(queue)
    ensures AtMostOne(queue)
  {
    if queue != [] {
      CalmIsAtMostOne(queue[1..]);
    }
  }

  lemma {:induction false} RewrittenIds(queue: seq<Message>, f: Message -> Option<Message>)
    requires KeepsIds(f) && Distinct(queue)
    ensures Ids(Rewritten(queue, f)) + Dropped(queue, f) == Ids(queue)
    ensures Ids(Rewritten(queue, f)) !! Dropped(queue, f)
    ensures Distinct(Rewritten(queue, f))
  {
    if queue != [] {
      RewrittenIds(queue[1..], f);
      var rest := Rewritten(queue[1..], f);
      if f(queue[0]).Some? {
        assert Rewritten(queue, f)[1..] == rest;
      } else {
        assert Rewritten(queue, f) == rest;
      }
    }
  }

  lemma {:induction false} RewrittenForThread(queue: seq<Message>, f: Message -> Option<Message>, t: Id)
    requires KeepsIds(f)
    ensures QueueMessagesForThread(Rewritten(queue, f), t) == Rewritten(QueueMessagesForThread(queue, t), f)
  {
    if queue != [] {
      RewrittenForThread(queue[1..], f, t);
      var rest, restOfThread := Rewritten(queue[1..], f), QueueMessagesForThread(queue[1..], t);
      assert f(queue[0]).Some? ==> Rewritten(queue, f)[1..] == rest;
      assert f(queue[0]).None? ==> Rewritten(queue, f) == rest;
      if queue[0].threadId == t {
        assert QueueMessagesForThread(queue, t)[1..] == restOfThread;
      } else {
        assert QueueMessagesForThread(queue, t) == restOfThread;
        assert QueueMessagesForThread(Rewritten(queue, f), t) == QueueMessagesForThread(rest, t);
      }
    }
  }

  lemma {:induction false} RewrittenCalm(queue: seq<Message>, f: Message -> Option<Message>)
    requires Settles(f)
    ensures Calm(queue) ==> Calm(Rewritten(queue, f))
    ensures AtMostOne(queue) ==> AtMostOne(Rewritten(queue, f))
  {
    if queue != [] {
      RewrittenCalm(queue[1..], f);
      assert f(queue[0]).Some? ==> Rewritten(queue, f)[1..] == Rewritten(queue[1..], f);
      assert f(queue[0]).None? ==> Rewritten(queue, f) == Rewritten(queue[1..], f);
      if Calm(queue[1..]) {
        CalmIsAtMostOne(Rewritten(queue[1..], f));
      }
    }
  }

  /** A rewriting that drops nothing keeps the ids in their order. */
  lemma {:induction false} RewrittenOrder(queue: seq<Message>, f: Message -> Option<Message>)
    requires KeepsIds(f) && forall m :: f(m).Some?
    ensures Order(Rewritten(queue, f)) == Order(queue) && Dropped(queue, f) == {}
  {
    if queue != [] {
      RewrittenOrder(queue[1..], f);
      assert Rewritten(queue, f)[1..] == Rewritten(queue[1..], f);
    }
  }

  /** The message ids in queue order. */
  function Order(queue: seq<Message>): seq<Id> {
    if queue == [] then [] else [queue[0].messageId] + Order(queue[1..])
  }

  lemma {:induction false} Unmarked(queue: seq<Message>, id: Id, now: int)
    requires id !in Ids(queue)
    ensures Rewritten(queue, Marking(id, now)) == queue
  {
    if queue != [] {
      Unmarked(queue[1..], id, now);
    }
  }

  lemma {:induction false} MarkedOne(queue: seq<Message>, id: Id, now: int)
    requires Calm(queue) && Distinct(queue)
    ensures AtMostOne(Rewritten(queue, Marking(id, now)))
  {
    if queue != [] {
      MarkedOne(queue[1..], id, now);
      assert Rewritten(queue, Marking(id, now))[1..] == Rewritten(queue[1..], Marking(id, now));
      if queue[0].messageId == id {
        Unmarked(queue[1..], id, now);
      }
    }
  }

  // ----- One thread's entries ---------------------------------------------------------------

  lemma {:induction false} ThreadIds(queue: seq<Message>, t: Id)
    ensures Ids(QueueMessagesForThread(queue, t)) <= Ids(queue)
    ensures Distinct(queue) ==> Distinct(QueueMessagesForThread(queue, t))
  {
    if queue != [] {
      ThreadIds(queue[1..], t);
      if queue[0].threadId == t {
        assert QueueMessagesForThread(queue, t)[1..] == QueueMessagesForThread(queue[1..], t);
      } else {
        assert QueueMessagesForThread(queue, t) == QueueMessagesForThread(queue[1..], t);
      }
    }
  }

  lemma {:induction false} OneThread(queue: seq<Message>, id: Id, s: Id, t: Id)
    requires Distinct(queue) && s != t && id in Ids(QueueMessagesForThread(queue, s))
    ensures id !in Ids(QueueMessagesForThread(queue, t))
  {
    var rest := queue[1..];
    ThreadIds(rest, s);
    ThreadIds(rest, t);
    var ofS, ofT := QueueMessagesForThread(rest, s), QueueMessagesForThread(rest, t);
    assert queue[0].threadId != s ==> QueueMessagesForThread(queue, s) == ofS;
    assert queue[0].threadId != t ==> QueueMessagesForThread(queue, t) == ofT;
    assert queue[0].threadId == s ==> QueueMessagesForThread(queue, s)[1..] == ofS;
    assert queue[0].threadId == t ==> QueueMessagesForThread(queue, t)[1..] == ofT;
    if id in Ids(ofS) {
      OneThread(rest, id, s, t);
    }
  }

  // ----- Joining and moving ------------------------------------------------------------------

  lemma First(m: Message, rest: seq<Message>)
    ensures var q := [m] + rest;
      && Ids(q) == {m.messageId} + Ids(rest) && Order(q) == [m.messageId] + Order(rest)
      && (Calm(q) <==> m.status.Queued? && Calm(rest))
      && (AtMostOne(q) <==> if m.status.Queued? then AtMostOne(rest) else Calm(rest))
      && (Distinct(q) <==> m.messageId !in Ids(rest) && Distinct(rest))
  {
    assert ([m] + rest)[1..] == rest;
  }

  lemma Nothing()
    ensures Ids([]) == {} && Order([]) == [] && Calm([]) && AtMostOne([]) && Distinct([])
  {
  }

  lemma {:induction false} Joined(a: seq<Message>, b: seq<Message>)
    ensures Ids(a + b) == Ids(a) + Ids(b) && Order(a + b) == Order(a) + Order(b)
    ensures Calm(a + b) <==> Calm(a) && Calm(b)
    ensures AtMostOne(a + b) <==> (AtMostOne(a) && Calm(b)) || (Calm(a) && AtMostOne(b))
    ensures Distinct(a + b) <==> Distinct(a) && Distinct(b) && Ids(a) !! Ids(b)
  {
    if Calm(b) { CalmIsAtMostOne(b); }
    hide Ids, Order, Calm, AtMostOne, Distinct;
    if a == [] {
      Nothing();
      assert a + b == b;
    } else {
      Joined(a[1..], b);
      if Calm(a[1..]) { CalmIsAtMostOne(a[1..]); }
      First(a[0], a[1..]);
      First(a[0], a[1..] + b);
      assert a == [a[0]] + a[1..] && a + b == [a[0]] + (a[1..] + b);
    }
  }

  lemma FirstForThread(m: Message, rest: seq<Message>, t: Id)
    ensures QueueMessagesForThread([m] + rest, t)
         == (if m.threadId == t then [m] else []) + QueueMessagesForThread(rest, t)
  {
    assert ([m] + rest)[1..] == rest;
  }

  lemma {:induction false} JoinedForThread(a: seq<Message>, b: seq<Message>, t: Id)
    ensures QueueMessagesForThread(a + b, t) == QueueMessagesForThread(a, t) + QueueMessagesForThread(b, t)
  {
    hide QueueMessagesForThread;
    if a == [] {
      assert a + b == b && [] + QueueMessagesForThread(b, t) == QueueMessagesForThread(b, t);
      NothingForThread(t);
    } else {
      JoinedForThread(a[1..], b, t);
      FirstForThread(a[0], a[1..], t);
      FirstForThread(a[0], a[1..] + b, t);
      assert a == [a[0]] + a[1..] && a + b == [a[0]] + (a[1..] + b);
    }
  }

  lemma NothingForThread(t: Id)
    ensures QueueMessagesForThread([], t) == []
  {
  }

  /** The places a move exchanges: k and k + 1, or none when the message is absent or at the end. */
  function Exchanged(queue: seq<Message>, id: Id, earlier: bool): (place: Option<nat>)
    ensures place.Some? ==> place.value + 1 < |queue|
  {
    var index := FindIndex(queue, id);
    if index < 0 || (if earlier then index == 0 else index + 1 == |queue|) then None
    else Some(if earlier then index - 1 else index)
  }

  lemma MoveExchanges(queue: seq<Message>, id: Id, earlier: bool)
    ensures MoveQueuedMessage(queue, id, earlier) == match Exchanged(queue, id, earlier)
      case None => queue
      case Some(k) => queue[..k] + [queue[k + 1], queue[k]] + queue[k + 2..]
  {
    var index, place := FindIndex(queue, id), Exchanged(queue, id, earlier);
    if place.Some? {
      var rest := queue[..index] + queue[index + 1..];
      if earlier {
        assert rest[..index - 1] == queue[..index - 1] && rest[index - 1..] == [queue[index - 1]] + queue[index + 1..];
        assert [queue[index]] + ([queue[index - 1]] + queue[index + 1..]) == [queue[index], queue[index - 1]] + queue[index + 1..];
      } else {
        assert rest[..index + 1] == queue[..index] + [queue[index + 1]] && rest[index + 1..] == queue[index + 2..];
        assert queue[..index] + [queue[index + 1]] + [queue[index]] == queue[..index] + [queue[index + 1], queue[index]];
      }
    }
  }

  lemma {:induction false} FoundAt(queue: seq<Message>, k: nat)
    requires Distinct(queue) && k < |queue|
    ensures FindIndex(queue, queue[k].messageId) == k && queue[k].messageId in Ids(queue)
  {
    if k > 0 {
      FoundAt(queue[1..], k - 1);
    }
  }

  /** A message moves one place towards the front when it is to go earlier, towards the end when later, if it can. */
  lemma MovedOnePlace(queue: seq<Message>, k: nat, earlier: bool)
    requires Distinct(queue) && k < |queue|
    ensures var target := if earlier then k - 1 else k + 1;
      MoveQueuedMessage(queue, queue[k].messageId, earlier) ==
        if 0 <= target < |queue| then queue[k := queue[target]][target := queue[k]] else queue
  {
    hide Distinct, MoveQueuedMessage;
    FoundAt(queue, k);
    MoveExchanges(queue, queue[k].messageId, earlier);
    if !earlier && k + 1 < |queue| {
      Exchange(queue, k);
    } else if earlier && k > 0 {
      Exchange(queue, k - 1);
    }
  }

  lemma Exchange(queue: seq<Message>, k: nat)
    requires k + 1 < |queue|
    ensures var exchanged := queue[..k] + [queue[k + 1], queue[k]] + queue[k + 2..];
      exchanged == queue[k := queue[k + 1]][k + 1 := queue[k]] == queue[k + 1 := queue[k]][k := queue[k + 1]]
  {
  }

  lemma ExchangeForThread(a: seq<Message>, x: Message, y: Message, c: seq<Message>, t: Id)
    ensures QueueMessagesForThread(a + [x, y] + c, t)
         == QueueMessagesForThread(a, t) + QueueMessagesForThread([x, y], t) + QueueMessagesForThread(c, t)
    ensures QueueMessagesForThread([x, y], t)
         == (if x.threadId == t then [x] else []) + (if y.threadId == t then [y] else [])
  {
    JoinedForThread(a + [x, y], c, t);
    JoinedForThread(a, [x, y], t);
    JoinedForThread([x], [y], t);
    assert [x] + [y] == [x, y];
  }

  lemma ExchangeKeeps(a: seq<Message>, x: Message, y: Message, c: seq<Message>)
    ensures Ids(a + [x, y] + c) == Ids(a + [y, x] + c)
    ensures Distinct(a + [x, y] + c) ==> Distinct(a + [y, x] + c)
    ensures AtMostOne(a + [x, y] + c) ==> AtMostOne(a + [y, x] + c)
  {
    Joined(a + [x, y], c);
    Joined(a, [x, y]);
    Joined(a + [y, x], c);
    Joined(a, [y, x]);
    Pair(x, y);
    Pair(y, x);
  }

  lemma Pair(x: Message, y: Message)
    ensures Ids([x, y]) == {x.messageId, y.messageId}
    ensures Distinct([x, y]) <==> x.messageId != y.messageId
    ensures Calm([x, y]) <==> x.status.Queued? && y.status.Queued?
    ensures AtMostOne([x, y]) <==> x.status.Queued? || y.status.Queued?
  {
    Joined([x], [y]);
    assert [x] + [y] == [x, y];
  }

  /** A thread's entries when two neighbours of the queue change places: theirs do too, or nothing changes. */
  lemma ExchangeWithinThread(a: seq<Message>, x: Message, y: Message, c: seq<Message>, t: Id)
    requires Distinct(a + [x, y] + c)
    ensures var before, after := QueueMessagesForThread(a + [x, y] + c, t), QueueMessagesForThread(a + [y, x] + c, t);
      && (AtMostOne(before) ==> AtMostOne(after))
      && (if x.threadId == t && y.threadId == t then Order(after) != Order(before) else after == before)
  {
    ExchangeForThread(a, x, y, c, t);
    ExchangeForThread(a, y, x, c, t);
    if x.threadId == t && y.threadId == t {
      var ofA, ofC := QueueMessagesForThread(a, t), QueueMessagesForThread(c, t);
      assert [x] + [y] == [x, y] && [y] + [x] == [y, x];
      ExchangeKeeps(ofA, x, y, ofC);
      DistinctPair(a, x, y, c);
      OrderDiffers(ofA, x, y, ofC);
    } else {
      assert QueueMessagesForThread([x, y], t) == QueueMessagesForThread([y, x], t);
    }
  }

  /** One move: no message comes or goes, and a thread's order changes exactly when the move overtakes within it. */
  lemma MovedForThread(queue: seq<Message>, id: Id, earlier: bool, t: Id)
    requires Distinct(queue)
    ensures var moved := MoveQueuedMessage(queue, id, earlier);
      && Ids(moved) == Ids(queue) && Distinct(moved)
      && (AtMostOne(QueueMessagesForThread(queue, t)) ==> AtMostOne(QueueMessagesForThread(moved, t)))
      && (!Overtakes(queue, id, earlier, t) ==> QueueMessagesForThread(moved, t) == QueueMessagesForThread(queue, t))
      && (Overtakes(queue, id, earlier, t) ==> Order(QueueMessagesForThread(moved, t)) != Order(QueueMessagesForThread(queue, t)))
  {
    MoveExchanges(queue, id, earlier);
    match Exchanged(queue, id, earlier)
    case None =>
    case Some(k) =>
      assert queue == queue[..k] + [queue[k], queue[k + 1]] + queue[k + 2..];
      ExchangeKeeps(queue[..k], queue[k], queue[k + 1], queue[k + 2..]);
      ExchangeWithinThread(queue[..k], queue[k], queue[k + 1], queue[k + 2..], t);
  }

  /** The move exchanges two messages of thread `t`. */
  predicate Overtakes(queue: seq<Message>, id: Id, earlier: bool, t: Id) {
    match Exchanged(queue, id, earlier)
    case None => false
    case Some(k) => queue[k].threadId == t && queue[k + 1].threadId == t
  }

  lemma DistinctPair(a: seq<Message>, x: Message, y: Message, c: seq<Message>)
    requires Distinct(a + [x, y] + c)
    ensures x.messageId != y.messageId
  {
    Joined(a + [x, y], c);
    Joined(a, [x, y]);
    Pair(x, y);
  }

  lemma OrderDiffers(a: seq<Message>, x: Message, y: Message, c: seq<Message>)
    requires x.messageId != y.messageId
    ensures Order(a + [x, y] + c) != Order(a + [y, x] + c)
  {
    Joined(a + [x, y], c);
    Joined(a, [x, y]);
    Joined(a + [y, x], c);
    Joined(a, [y, x]);
    Joined([x], [y]);
    Joined([y], [x]);
    assert [x] + [y] == [x, y] && [y] + [x] == [y, x];
    assert Order(a + [x, y] + c)[|Order(a)|] == x.messageId && Order(a + [y, x] + c)[|Order(a)|] == y.messageId;
  }

  lemma Retouched(queue: seq<Message>, f: Message -> Option<Message>)
    requires KeepsIds(f) && (forall m :: f(m).Some?) && Distinct(queue)
    ensures Distinct(Rewritten(queue, f)) && Ids(Rewritten(queue, f)) == Ids(queue)
  {
  }

  // ----- Safety over every run --------------------------------------------------------------

  lemma EnqueuedForThread(queue: seq<Message>, m: Message, t: Id)
    requires m.status.Queued? && m.messageId !in Ids(queue)
    ensures Ids(queue + [m]) == Ids(queue) + {m.messageId} && (Distinct(queue) ==> Distinct(queue + [m]))
    ensures QueueMessagesForThread(queue + [m], t) == QueueMessagesForThread(queue, t) + if m.threadId == t then [m] else []
    ensures AtMostOne(QueueMessagesForThread(queue, t)) ==> AtMostOne(QueueMessagesForThread(queue + [m], t))
  {
    Joined(queue, [m]);
    JoinedForThread(queue, [m], t);
    Joined(QueueMessagesForThread(queue, t), QueueMessagesForThread([m], t));
  }

  lemma PumpedForThread(queue: seq<Message>, id: Id, now: int, s: Id, t: Id)
    requires Distinct(queue) && Calm(QueueMessagesForThread(queue, s)) && id in Ids(QueueMessagesForThread(queue, s))
    requires AtMostOne(QueueMessagesForThread(queue, t))
    ensures AtMostOne(QueueMessagesForThread(MarkQueuedHeadDispatching(queue, id, now), t))
  {
    RewrittenForThread(queue, Marking(id, now), t);
    ThreadIds(queue, t);
    if s == t {
      MarkedOne(QueueMessagesForThread(queue, t), id, now);
    } else {
      OneThread(queue, id, s, t);
      Unmarked(QueueMessagesForThread(queue, t), id, now);
    }
  }

  lemma RemovalDrops(queue: seq<Message>, id: Id)
    ensures Dropped(queue, Removal(id)) == {id} * Ids(queue)
  {
  }

  /**
   * Conservation: at every moment the ids ever enqueued are those still waiting, those the user
   * removed and those found complete, and no id is in two of these; so a message leaves the
   * queue in one of these two ways only, and once.
   */
  lemma {:induction false} Conservation(h: History)
    requires Legal(h)
    ensures Distinct(Queue(h))
    ensures Ids(Queue(h)) + RemovedIds(h) + CompletedIds(h) == EnqueuedIds(h)
    ensures Ids(Queue(h)) !! RemovedIds(h) !! CompletedIds(h)
  {
    match h
    case Start =>
    case Then(b, e) =>
      Conservation(b);
      ConservationStep(Queue(b), e);
      var gone, came := Departed(Queue(b), e), if e.Enqueued? then {e.message.messageId} else {};
      Partition(Ids(Queue(b)), RemovedIds(b), CompletedIds(b), gone, if e.Removed? then gone else {}, came);
      assert e.Reconciled? || e.Removed? || gone == {};
      assert EnqueuedIds(h) == EnqueuedIds(b) + came;
  }

  /** What leaves the first part of a partition goes to one of the others; what arrives is new. */
  lemma Partition(waiting: set<Id>, removed: set<Id>, completed: set<Id>, gone: set<Id>, byUser: set<Id>, came: set<Id>)
    requires byUser <= gone <= waiting && waiting !! removed !! completed !! came
    ensures var all := waiting + removed + completed;
      && (waiting - gone + came) + (removed + byUser) + (completed + (gone - byUser)) == all + came
      && (waiting - gone + came) !! (removed + byUser) !! (completed + (gone - byUser))
  {
  }

  lemma ConservationStep(queue: seq<Message>, e: Event)
    requires Distinct(queue)
    requires e.Enqueued? ==> e.message.messageId !in Ids(queue) && e.message.status.Queued?
    ensures Distinct(Apply(queue, e))
    ensures Departed(queue, e) <= Ids(queue)
    ensures Ids(Apply(queue, e)) == Ids(queue) - Departed(queue, e) + if e.Enqueued? then {e.message.messageId} else {}
  {
    hide ResolveQueuePumpDecision, MoveQueuedMessage, Overtakes, QueueMessagesForThread, Rewritten, Ids, Distinct;
    match e
    case Enqueued(m) => EnqueuedForThread(queue, m, m.threadId);
    case Moved(id, earlier) => MovedForThread(queue, id, earlier, id);
    case Removed(id) =>
      RewrittenIds(queue, Removal(id));
      RemovalDrops(queue, id);
    case Pumped(threadId, running, nextRetryAt, now) =>
      var decision := ResolveQueuePumpDecision(threadId, queue, running, nextRetryAt, now);
      if decision.Dispatch? {
        Retouched(queue, Marking(decision.head.messageId, now));
      }
    case Reconciled(now, observed) => RewrittenIds(queue, Reconciling(now, observed));
    case Edited(id, text) =>
      Retouched(queue, Editing(id, text));
    case SendFailed(id) =>
      Retouched(queue, Requeueing(id));
  }

  /** In every run, each thread has at most one dispatching message. */
  lemma {:induction false} OneDispatchAtATime(h: History, t: Id)
    requires Legal(h)
    ensures AtMostOne(QueueMessagesForThread(Queue(h), t))
  {
    match h
    case Start =>
    case Then(b, e) =>
      OneDispatchAtATime(b, t);
      Conservation(b);
      DispatchStep(Queue(b), e, t);
  }

  lemma DispatchStep(queue: seq<Message>, e: Event, t: Id)
    requires Distinct(queue) && AtMostOne(QueueMessagesForThread(queue, t))
    requires e.Enqueued? ==> e.message.messageId !in Ids(queue) && e.message.status.Queued?
    ensures AtMostOne(QueueMessagesForThread(Apply(queue, e), t))
  {
    var entries := QueueMessagesForThread(queue, t);
    match e
    case Enqueued(m) => EnqueuedForThread(queue, m, t);
    case Moved(id, earlier) => MovedForThread(queue, id, earlier, t);
    case Pumped(threadId, running, nextRetryAt, now) =>
      var decision := ResolveQueuePumpDecision(threadId, queue, running, nextRetryAt, now);
      if decision.Dispatch? {
        PumpedForThread(queue, decision.head.messageId, now, threadId, t);
      }
    case Removed(id) =>
      RewrittenForThread(queue, Removal(id), t);
      RewrittenCalm(entries, Removal(id));
    case Reconciled(now, observed) =>
      RewrittenForThread(queue, Reconciling(now, observed), t);
      RewrittenCalm(entries, Reconciling(now, observed));
    case Edited(id, text) =>
      RewrittenForThread(queue, Editing(id, text), t);
      RewrittenCalm(entries, Editing(id, text));
    case SendFailed(id) =>
      RewrittenForThread(queue, Requeueing(id), t);
      RewrittenCalm(entries, Requeueing(id));
  }

  // ----- First in, first out ------------------------------------------------------------------

  /** Only the first of a thread's entries may be dispatching. */
  predicate HeadOnly(entries: seq<Message>) {
    entries == [] || Calm(entries[1..])
  }

  /** No move so far exchanged two messages of thread `t`. */
  predicate NoOvertaking(h: History, t: Id) {
    match h
    case Start => true
    case Then(b, e) => NoOvertaking(b, t) && (e.Moved? ==> !Overtakes(Queue(b), e.messageId, e.earlier, t))
  }

  function EnqueuedOrder(h: History, t: Id): seq<Id> {
    match h
    case Start => []
    case Then(b, e) =>
      if e.Enqueued? && e.message.threadId == t then EnqueuedOrder(b, t) + [e.message.messageId] else EnqueuedOrder(b, t)
  }

  function CompletedOrder(h: History, t: Id): seq<Id> {
    match h
    case Start => []
    case Then(b, e) =>
      if e.Reconciled? then CompletedOrder(b, t) + CompletedNow(Queue(b), e, t) else CompletedOrder(b, t)
  }

  function CompletedNow(queue: seq<Message>, e: Event, t: Id): seq<Id>
    requires e.Reconciled?
  {
    DroppedOrder(QueueMessagesForThread(queue, t), Reconciling(e.now, e.observed))
  }

  /** The messages of thread `t` still in the queue. */
  function Waiting(queue: seq<Message>, t: Id): seq<Id> {
    Order(QueueMessagesForThread(queue, t))
  }

  function DroppedOrder(queue: seq<Message>, f: Message -> Option<Message>): seq<Id> {
    if queue == [] then []
    else (if f(queue[0]).None? then [queue[0].messageId] else []) + DroppedOrder(queue[1..], f)
  }

  function Keep(ids: seq<Id>, gone: set<Id>): seq<Id> {
    if ids == [] then []
    else (if ids[0] in gone then [] else [ids[0]]) + Keep(ids[1..], gone)
  }

  /** Thread `t`: the messages completed so far, in that order, then the waiting ones, are those enqueued and not removed. */
  predicate InOrder(h: History, t: Id) {
    CompletedOrder(h, t) + Waiting(Queue(h), t) == Keep(EnqueuedOrder(h, t), RemovedIds(h))
  }

  lemma KeepFirst(id: Id, rest: seq<Id>, gone: set<Id>)
    ensures Keep([id] + rest, gone) == (if id in gone then [] else [id]) + Keep(rest, gone)
  {
    assert ([id] + rest)[1..] == rest;
  }

  lemma KeepNothing(gone: set<Id>)
    ensures Keep([], gone) == []
  {
  }

  lemma {:induction false} KeepJoined(a: seq<Id>, b: seq<Id>, gone: set<Id>)
    ensures Keep(a + b, gone) == Keep(a, gone) + Keep(b, gone)
  {
    hide Keep;
    if a == [] {
      KeepNothing(gone);
      assert a + b == b;
    } else {
      KeepJoined(a[1..], b, gone);
      KeepFirst(a[0], a[1..], gone);
      KeepFirst(a[0], a[1..] + b, gone);
      assert a == [a[0]] + a[1..] && a + b == [a[0]] + (a[1..] + b);
    }
  }

  lemma {:induction false} KeepTwice(ids: seq<Id>, gone: set<Id>, more: set<Id>)
    ensures Keep(ids, gone + more) == Keep(Keep(ids, gone), more)
  {
    if ids != [] {
      KeepTwice(ids[1..], gone, more);
      KeepJoined(if ids[0] in gone then [] else [ids[0]], Keep(ids[1..], gone), more);
    }
  }

  lemma {:induction false} KeepAll(ids: seq<Id>, gone: set<Id>)
    requires forall id | id in ids :: id !in gone
    ensures Keep(ids, gone) == ids
  {
    if ids != [] {
      assert forall id | id in ids[1..] :: id in ids;
      KeepAll(ids[1..], gone);
    }
  }

  lemma {:induction false} OrderInIds(queue: seq<Message>)
    ensures forall id | id in Order(queue) :: id in Ids(queue)
  {
    if queue != [] {
      OrderInIds(queue[1..]);
    }
  }

  lemma {:induction false} DroppedInIds(queue: seq<Message>, f: Message -> Option<Message>, t: Id)
    ensures forall id | id in DroppedOrder(QueueMessagesForThread(queue, t), f) :: id in Dropped(queue, f)
  {
    if queue != [] {
      DroppedInIds(queue[1..], f, t);
      var rest := QueueMessagesForThread(queue[1..], t);
      if queue[0].threadId == t {
        assert QueueMessagesForThread(queue, t)[1..] == rest;
      } else {
        assert QueueMessagesForThread(queue, t) == rest;
      }
    }
  }

  lemma {:induction false} CompletedInIds(h: History, t: Id)
    ensures forall id | id in CompletedOrder(h, t) :: id in CompletedIds(h)
  {
    match h
    case Start =>
    case Then(b, e) =>
      CompletedInIds(b, t);
      if e.Reconciled? {
        DroppedInIds(Queue(b), Reconciling(e.now, e.observed), t);
      }
  }

  lemma {:induction false} RemovalOrder(queue: seq<Message>, id: Id)
    ensures Order(Rewritten(queue, Removal(id))) == Keep(Order(queue), {id})
  {
    if queue != [] {
      RemovalOrder(queue[1..], id);
      var rest := Rewritten(queue[1..], Removal(id));
      if queue[0].messageId == id {
        assert Rewritten(queue, Removal(id)) == rest;
      } else {
        assert Rewritten(queue, Removal(id))[1..] == rest;
      }
    }
  }

  lemma {:induction false} CalmStays(queue: seq<Message>, now: int, observed: map<Id, Observation>)
    requires Calm(queue)
    ensures Rewritten(queue, Reconciling(now, observed)) == queue && DroppedOrder(queue, Reconciling(now, observed)) == []
  {
    if queue != [] {
      CalmStays(queue[1..], now, observed);
    }
  }

  /** Reconciling takes at most the first entry of a thread. */
  lemma ReconciledOrder(entries: seq<Message>, now: int, observed: map<Id, Observation>)
    requires HeadOnly(entries)
    ensures var f := Reconciling(now, observed);
      && DroppedOrder(entries, f) + Order(Rewritten(entries, f)) == Order(entries)
      && HeadOnly(Rewritten(entries, f))
  {
    if entries != [] {
      hide ResolveDispatchingTransition;
      var f, rest := Reconciling(now, observed), entries[1..];
      CalmStays(rest, now, observed);
      assert f(entries[0]).None? ==> Rewritten(entries, f) == rest;
      assert f(entries[0]).Some? ==> Rewritten(entries, f)[1..] == rest;
    }
  }

  lemma HeadOnlyRewritten(entries: seq<Message>, f: Message -> Option<Message>)
    requires HeadOnly(entries) && Settles(f)
    ensures HeadOnly(Rewritten(entries, f))
  {
    if entries != [] {
      RewrittenCalm(entries[1..], f);
      var rest := Rewritten(entries[1..], f);
      assert f(entries[0]).None? ==> Rewritten(entries, f) == rest;
      assert f(entries[0]).Some? ==> Rewritten(entries, f)[1..] == rest;
    }
  }

  lemma HeadOnlyEnqueued(entries: seq<Message>, m: Message)
    requires HeadOnly(entries) && m.status.Queued?
    ensures HeadOnly(entries + [m]) && Order(entries + [m]) == Order(entries) + [m.messageId]
  {
    Joined(entries, [m]);
    if entries == [] {
      assert entries + [m] == [m];
    } else {
      Joined(entries[1..], [m]);
      assert (entries + [m])[1..] == entries[1..] + [m];
    }
  }

  lemma HeadOnlyMarked(entries: seq<Message>, now: int)
    requires entries != [] && Calm(entries) && Distinct(entries)
    ensures HeadOnly(Rewritten(entries, Marking(entries[0].messageId, now)))
  {
    Unmarked(entries[1..], entries[0].messageId, now);
  }

  lemma PumpedFifo(queue: seq<Message>, id: Id, now: int, s: Id, t: Id)
    requires Distinct(queue) && HeadOnly(QueueMessagesForThread(queue, t))
    requires var waiting := QueueMessagesForThread(queue, s); Calm(waiting) && waiting != [] && waiting[0].messageId == id
    ensures var marked := QueueMessagesForThread(MarkQueuedHeadDispatching(queue, id, now), t);
      HeadOnly(marked) && Order(marked) == Order(QueueMessagesForThread(queue, t))
  {
    var entries := QueueMessagesForThread(queue, t);
    RewrittenForThread(queue, Marking(id, now), t);
    RewrittenOrder(entries, Marking(id, now));
    ThreadIds(queue, t);
    if s == t {
      HeadOnlyMarked(entries, now);
    } else {
      OneThread(queue, id, s, t);
      Unmarked(entries, id, now);
    }
  }

  /** What each event does to a thread's order while nothing overtakes. */
  lemma FifoStep(queue: seq<Message>, e: Event, t: Id)
    requires Distinct(queue) && HeadOnly(QueueMessagesForThread(queue, t))
    requires e.Enqueued? ==> e.message.messageId !in Ids(queue) && e.message.status.Queued?
    requires e.Moved? ==> !Overtakes(queue, e.messageId, e.earlier, t)
    ensures HeadOnly(QueueMessagesForThread(Apply(queue, e), t))
    ensures var before, after := Waiting(queue, t), Waiting(Apply(queue, e), t);
      && (e.Enqueued? && e.message.threadId == t ==> after == before + [e.message.messageId])
      && (e.Removed? ==> after == Keep(before, {e.messageId}))
      && (e.Reconciled? ==> CompletedNow(queue, e, t) + after == before)
      && ((e.Enqueued? ==> e.message.threadId != t) && !e.Removed? && !e.Reconciled? ==> after == before)
  {
    var entries := QueueMessagesForThread(queue, t);
    match e
    case Enqueued(m) =>
      EnqueuedForThread(queue, m, t);
      if m.threadId == t {
        HeadOnlyEnqueued(entries, m);
      } else {
        assert entries + [] == entries;
      }
    case Moved(id, earlier) => MovedForThread(queue, id, earlier, t);
    case Pumped(threadId, running, nextRetryAt, now) =>
      var decision := ResolveQueuePumpDecision(threadId, queue, running, nextRetryAt, now);
      if decision.Dispatch? {
        PumpedFifo(queue, decision.head.messageId, now, threadId, t);
      }
    case Removed(id) =>
      RewrittenForThread(queue, Removal(id), t);
      HeadOnlyRewritten(entries, Removal(id));
      RemovalOrder(entries, id);
    case Reconciled(now, observed) =>
      RewrittenForThread(queue, Reconciling(now, observed), t);
      ReconciledOrder(entries, now, observed);
    case Edited(id, text) =>
      RewrittenForThread(queue, Editing(id, text), t);
      HeadOnlyRewritten(entries, Editing(id, text));
      RewrittenOrder(entries, Editing(id, text));
    case SendFailed(id) =>
      RewrittenForThread(queue, Requeueing(id), t);
      HeadOnlyRewritten(entries, Requeueing(id));
      RewrittenOrder(entries, Requeueing(id));
  }

  /**
   * As long as no move exchanges two messages of a thread, its dispatching message is its first
   * and its messages complete in the order they were enqueued, however often they are requeued.
   */
  lemma {:induction false} FirstInFirstOut(h: History, t: Id)
    requires Legal(h) && NoOvertaking(h, t)
    ensures HeadOnly(QueueMessagesForThread(Queue(h), t))
    ensures InOrder(h, t)
  {
    match h
    case Start =>
    case Then(b, e) =>
      FirstInFirstOut(b, t);
      Conservation(b);
      FifoStep(Queue(b), e, t);
      var removed := RemovedIds(b);
      match e
      case Enqueued(m) =>
        if m.threadId == t {
          assert m.messageId !in RemovedIds(b);
          KeepNew(EnqueuedOrder(b, t), m.messageId, RemovedIds(b));
          Carried(CompletedOrder(b, t), Waiting(Queue(b), t), [m.messageId]);
        }
      case Removed(id) =>
        KeepTwice(EnqueuedOrder(b, t), RemovedIds(b), Departed(Queue(b), e));
        RemovedOrder(b, id, t);
      case Reconciled(_, _) =>
        Carried(CompletedOrder(b, t), CompletedNow(Queue(b), e, t), Waiting(Queue(h), t));
      case _ =>
  }

  lemma KeepNew(ids: seq<Id>, id: Id, gone: set<Id>)
    requires id !in gone
    ensures Keep(ids + [id], gone) == Keep(ids, gone) + [id]
  {
    KeepJoined(ids, [id], gone);
  }

  lemma Carried(a: seq<Id>, b: seq<Id>, c: seq<Id>)
    ensures (a + b) + c == a + (b + c)
  {
  }

  /** Taking a message out of the queue takes it out of what its thread has done and has waiting. */
  lemma RemovedOrder(h: History, id: Id, t: Id)
    requires Legal(h)
    ensures var done, waiting := CompletedOrder(h, t), Waiting(Queue(h), t);
      Keep(done + waiting, {id} * Ids(Queue(h))) == done + Keep(waiting, {id})
  {
    var done, waiting := CompletedOrder(h, t), Waiting(Queue(h), t);
    var gone := {id} * Ids(Queue(h));
    Conservation(h);
    CompletedInIds(h, t);
    OrderInIds(QueueMessagesForThread(Queue(h), t));
    ThreadIds(Queue(h), t);
    KeepJoined(done, waiting, gone);
    KeepAll(done, gone);
    if id !in Ids(Queue(h)) {
      KeepAll(waiting, gone);
      KeepAll(waiting, {id});
    } else {
      assert gone == {id};
    }
  }

  /** A move keeps a thread's order of enqueueing, where it held before, exactly when it overtakes nothing there. */
  lemma MoveKeepsOrderExactly(h: History, t: Id)
    requires Legal(h) && h.Then? && h.last.Moved? && InOrder(h.before, t)
    ensures InOrder(h, t) <==> !Overtakes(Queue(h.before), h.last.messageId, h.last.earlier, t)
  {
    Conservation(h.before);
    MovedForThread(Queue(h.before), h.last.messageId, h.last.earlier, t);
    if InOrder(h, t) {
      Cancels(CompletedOrder(h, t), Waiting(Queue(h), t), Waiting(Queue(h.before), t));
    }
  }

  lemma Cancels(done: seq<Id>, a: seq<Id>, b: seq<Id>)
    requires done + a == done + b
    ensures a == b
  {
    assert (done + a)[|done|..] == a && (done + b)[|done|..] == b;
  }

  // ----- What the reconcile pass knows about a dispatch --------------------------------------

  function Find(queue: seq<Message>, id: Id): Option<Message> {
    if queue == [] then None
    else if queue[0].messageId == id then Some(queue[0])
    else Find(queue[1..], id)
  }

  predicate Dispatches(queue: seq<Message>, e: Event, id: Id) {
    e.Pumped? &&
    var decision := ResolveQueuePumpDecision(e.threadId, queue, e.threadIsRunning, e.nextRetryAt, e.now);
    decision.Dispatch? && decision.head.messageId == id
  }

  /** When `id` was last dispatched. */
  function DispatchTime(h: History, id: Id): Option<int> {
    match h
    case Start => None
    case Then(b, e) => if Dispatches(Queue(b), e, id) then Some(e.now) else DispatchTime(b, id)
  }

  /** Whether a reconcile pass saw the thread running since `id` was last dispatched. */
  function RunningSeen(h: History, id: Id): bool {
    match h
    case Start => false
    case Then(b, e) =>
      !Dispatches(Queue(b), e, id)
      && (RunningSeen(b, id) || SeesRunning(e, id))
  }

  lemma {:induction false} FoundIffListed(queue: seq<Message>, id: Id)
    ensures Find(queue, id).Some? <==> id in Ids(queue)
  {
    if queue != [] {
      FoundIffListed(queue[1..], id);
    }
  }

  lemma {:induction false} FoundRewritten(queue: seq<Message>, f: Message -> Option<Message>, id: Id)
    requires KeepsIds(f) && Distinct(queue)
    ensures Find(Rewritten(queue, f), id) == match Find(queue, id) case Some(m) => f(m) case None => None
  {
    if queue != [] {
      FoundRewritten(queue[1..], f, id);
      var rest := Rewritten(queue[1..], f);
      assert f(queue[0]).None? ==> Rewritten(queue, f) == rest;
      assert f(queue[0]).Some? ==> Rewritten(queue, f)[1..] == rest;
      FoundIffListed(queue[1..], id);
    }
  }

  lemma {:induction false} FoundJoined(a: seq<Message>, b: seq<Message>, id: Id)
    ensures Find(a + b, id) == if Find(a, id).Some? then Find(a, id) else Find(b, id)
  {
    if a == [] {
      assert a + b == b;
    } else {
      FoundJoined(a[1..], b, id);
      assert (a + b)[1..] == a[1..] + b;
    }
  }

  lemma FoundMoved(queue: seq<Message>, moved: Id, earlier: bool, id: Id)
    requires Distinct(queue)
    ensures Find(MoveQueuedMessage(queue, moved, earlier), id) == Find(queue, id)
  {
    hide Find, Distinct, MoveQueuedMessage;
    MoveExchanges(queue, moved, earlier);
    match Exchanged(queue, moved, earlier)
    case None =>
    case Some(k) =>
      assert queue == queue[..k] + [queue[k], queue[k + 1]] + queue[k + 2..];
      FoundExchanged(queue[..k], queue[k], queue[k + 1], queue[k + 2..], id);
  }

  lemma FoundExchanged(a: seq<Message>, x: Message, y: Message, c: seq<Message>, id: Id)
    requires Distinct(a + [x, y] + c)
    ensures Find(a + [x, y] + c, id) == Find(a + [y, x] + c, id)
  {
    DistinctPair(a, x, y, c);
    FoundJoined(a + [x, y], c, id);
    FoundJoined(a, [x, y], id);
    FoundJoined(a + [y, x], c, id);
    FoundJoined(a, [y, x], id);
    FoundJoined([x], [y], id);
    FoundJoined([y], [x], id);
    assert [x] + [y] == [x, y] && [y] + [x] == [y, x];
  }

  function Step(queue: seq<Message>, e: Event, id: Id): Message -> Option<Message> {
    match e
    case Edited(to, text) => Editing(to, text)
    case Removed(gone) => Removal(gone)
    case SendFailed(failed) => Requeueing(failed)
    case Reconciled(now, observed) => Reconciling(now, observed)
    case Pumped(_, _, _, now) => if Dispatches(queue, e, id) then Marking(id, now) else (m: Message) => Some(m)
    case _ => (m: Message) => Some(m)
  }

  /** What an event makes of the message with this id, if it is in the queue before and after. */
  lemma FoundStep(queue: seq<Message>, e: Event, id: Id)
    requires Distinct(queue)
    requires e.Enqueued? ==> e.message.messageId !in Ids(queue)
    ensures Find(Apply(queue, e), id) ==
      if e.Enqueued? && e.message.messageId == id then Some(e.message)
      else if Find(queue, id).None? then None
      else Step(queue, e, id)(Find(queue, id).value)
  {
    match e
    case Enqueued(m) =>
      FoundJoined(queue, [m], id);
      FoundIffListed(queue, id);
    case Moved(moved, earlier) => FoundMoved(queue, moved, earlier, id);
    case Edited(to, text) => FoundRewritten(queue, Editing(to, text), id);
    case Removed(gone) => FoundRewritten(queue, Removal(gone), id);
    case SendFailed(failed) => FoundRewritten(queue, Requeueing(failed), id);
    case Reconciled(now, observed) => FoundRewritten(queue, Reconciling(now, observed), id);
    case Pumped(threadId, running, nextRetryAt, now) =>
      var decision := ResolveQueuePumpDecision(threadId, queue, running, nextRetryAt, now);
      if decision.Dispatch? {
        FoundRewritten(queue, Marking(decision.head.messageId, now), id);
        FoundHasId(queue, id);
      }
  }

  lemma {:induction false} FoundHasId(queue: seq<Message>, id: Id)
    ensures Find(queue, id).Some? ==> Find(queue, id).value.messageId == id
  {
    if queue != [] {
      FoundHasId(queue[1..], id);
    }
  }

  // ----- What each event does, field by field ---------------------------------------------

  lemma {:induction false} FoundInThread(queue: seq<Message>, t: Id, m: Message)
    requires Distinct(queue) && m in QueueMessagesForThread(queue, t)
    ensures Find(queue, m.messageId) == Some(m)
  {
    var rest := queue[1..];
    if m in QueueMessagesForThread(rest, t) {
      FoundInThread(rest, t, m);
      FoundIffListed(rest, m.messageId);
    } else {
      assert m == queue[0];
    }
  }

  /** The message dispatched is in the queue, and queued. */
  lemma DispatchedIsQueued(queue: seq<Message>, e: Event, id: Id)
    requires Distinct(queue) && Dispatches(queue, e, id)
    ensures Find(queue, id).Some? && Find(queue, id).value.status.Queued?
    ensures ResolveQueuePumpDecision(e.threadId, queue, e.threadIsRunning, e.nextRetryAt, e.now)
         == Dispatch(Find(queue, id).value)
  {
    hide Find, Distinct;
    var waiting := QueueMessagesForThread(queue, e.threadId);
    CalmExactly(waiting);
    assert waiting[0] in waiting;
    FoundInThread(queue, e.threadId, waiting[0]);
  }

  /** What any event makes of a message that waits. */
  lemma EventEffects(h: History, e: Event, id: Id)
    requires Legal(Then(h, e)) && Find(Queue(h), id).Some?
    ensures var m, after := Find(Queue(h), id).value, Find(Queue(Then(h, e)), id);
      && m.messageId == id
      && (e.Enqueued? || e.Moved? ==> after == Some(m))
      && (e.Edited? ==> after == Some(
            Message(m.threadId, id, if e.messageId == id then e.text else m.text, m.payload,
                    m.status, m.dispatchedAt, m.turnRunningSeen)))
      && (e.Removed? ==> after == if e.messageId == id then None else Some(m))
      && (e.SendFailed? ==> after == Some(
            if e.messageId == id then Message(m.threadId, id, m.text, m.payload, Queued, None, false) else m))
      && (e.Pumped? ==> after == Some(
            if Dispatches(Queue(h), e, id) then Message(m.threadId, id, m.text, m.payload, Dispatching, Some(e.now), false)
            else m))
      && (e.Reconciled? && m.status.Queued? ==> after == Some(m))
      && (e.Reconciled? && after.Some? ==>
            after.value == Message(m.threadId, id, m.text, m.payload, after.value.status, after.value.dispatchedAt,
                                   after.value.turnRunningSeen))
  {
    hide Find, Apply, Distinct;
    Conservation(h);
    FoundHasId(Queue(h), id);
    FoundIffListed(Queue(h), id);
    FoundStep(Queue(h), e, id);
  }

  /** Whether an event puts the message back to be sent again. */
  predicate Requeues(queue: seq<Message>, e: Event, id: Id) {
    || (e.SendFailed? && e.messageId == id)
    || (e.Reconciled? && Find(Apply(queue, e), id).Some? && Find(Apply(queue, e), id).value.status.Queued?)
  }

  /** Whether `id` has been put back since it was last dispatched. */
  predicate RequeuedSinceDispatch(h: History, id: Id) {
    match h
    case Start => false
    case Then(b, e) => !Dispatches(Queue(b), e, id) && (RequeuedSinceDispatch(b, id) || Requeues(Queue(b), e, id))
  }

  lemma {:induction false} DispatchedWasEnqueued(h: History, id: Id)
    requires Legal(h) && DispatchTime(h, id).Some?
    ensures id in EnqueuedIds(h)
  {
    var b, e := h.before, h.last;
    if Dispatches(Queue(b), e, id) {
      Conservation(b);
      DispatchedIsQueued(Queue(b), e, id);
      FoundIffListed(Queue(b), id);
    } else {
      DispatchedWasEnqueued(b, id);
    }
  }

  /** A message that was dispatched and waits again has been put back. */
  lemma {:induction false} WaitsAgain(h: History, id: Id)
    requires Legal(h) && Find(Queue(h), id).Some? && Find(Queue(h), id).value.status.Queued?
    requires DispatchTime(h, id).Some?
    ensures RequeuedSinceDispatch(h, id)
  {
    hide Apply, Find, ResolveQueuePumpDecision;
    var b, e := h.before, h.last;
    Conservation(b);
    FoundStep(Queue(b), e, id);
    if e.Enqueued? && e.message.messageId == id {
      DispatchedWasEnqueued(b, id);
    } else {
      EventEffects(b, e, id);
      if Find(Queue(b), id).value.status.Queued? && !Dispatches(Queue(b), e, id) {
        WaitsAgain(b, id);
      }
    }
  }

  /** Between two dispatches of one message its send failed or a reconcile pass gave it up: no prompt is sent twice. */
  lemma RequeuedBetweenDispatches(h: History, e: Event, id: Id)
    requires Legal(h) && Dispatches(Queue(h), e, id) && DispatchTime(h, id).Some?
    ensures RequeuedSinceDispatch(h, id)
  {
    Conservation(h);
    DispatchedIsQueued(Queue(h), e, id);
    WaitsAgain(h, id);
  }

  /** A pump that dispatches leaves its head dispatching, so that the next pump of the thread does not dispatch. */
  lemma PumpMarksHead(h: History, e: Event, head: Message, next: Event)
    requires Legal(h) && e.Pumped? && next.Pumped? && next.threadId == e.threadId
    requires ResolveQueuePumpDecision(e.threadId, Queue(h), e.threadIsRunning, e.nextRetryAt, e.now) == Dispatch(head)
    ensures Find(Queue(Then(h, e)), head.messageId) ==
      Some(Message(head.threadId, head.messageId, head.text, head.payload, Dispatching, Some(e.now), false))
    ensures !ResolveQueuePumpDecision(next.threadId, Queue(Then(h, e)), next.threadIsRunning, next.nextRetryAt, next.now).Dispatch?
  {
    hide Apply, Find, ResolveQueuePumpDecision;
    var marked := Queue(Then(h, e));
    Conservation(h);
    DispatchedIsQueued(Queue(h), e, head.messageId);
    EventEffects(h, e, head.messageId);
    ThreadOfHead(Queue(h), e.threadId);
    FoundIsOfThread(marked, head.messageId);
    CalmExactly(QueueMessagesForThread(marked, e.threadId));
  }

  lemma {:induction false} ThreadOfHead(queue: seq<Message>, t: Id)
    ensures var waiting := QueueMessagesForThread(queue, t); waiting != [] ==> waiting[0].threadId == t
  {
    if queue != [] {
      ThreadOfHead(queue[1..], t);
      if queue[0].threadId == t {
        assert QueueMessagesForThread(queue, t)[0] == queue[0];
      } else {
        assert QueueMessagesForThread(queue, t) == QueueMessagesForThread(queue[1..], t);
      }
    }
  }

  lemma {:induction false} FoundIsOfThread(queue: seq<Message>, id: Id)
    requires Find(queue, id).Some?
    ensures Find(queue, id).value in QueueMessagesForThread(queue, Find(queue, id).value.threadId)
  {
    if queue[0].messageId != id {
      FoundIsOfThread(queue[1..], id);
    }
  }

  /** The entry's own flags: when it was dispatched and whether its turn has been seen running since. */
  predicate Flagged(m: Message, dispatched: Option<int>, seen: bool) {
    if m.status.Dispatching? then m.dispatchedAt.Some? && m.dispatchedAt == dispatched && m.turnRunningSeen == seen
    else m.dispatchedAt.None? && !m.turnRunningSeen
  }

  predicate SeesRunning(e: Event, id: Id) {
    e.Reconciled? && id in e.observed && e.observed[id].turnRunning
  }

  lemma FlagsStep(queue: seq<Message>, e: Event, m: Message, dispatched: Option<int>, seen: bool)
    requires Flagged(m, dispatched, seen) && Step(queue, e, m.messageId)(m).Some?
    ensures var dispatches := Dispatches(queue, e, m.messageId);
      Flagged(Step(queue, e, m.messageId)(m).value, if dispatches then Some(e.now) else dispatched,
              !dispatches && (seen || SeesRunning(e, m.messageId)))
  {
  }

  /** In every run the flags of an entry agree with the history. */
  lemma {:induction false} FlagsAreHistory(h: History, id: Id)
    requires Legal(h) && Find(Queue(h), id).Some?
    ensures Flagged(Find(Queue(h), id).value, DispatchTime(h, id), RunningSeen(h, id))
  {
    match h
    case Start =>
    case Then(b, e) =>
      Conservation(b);
      FoundStep(Queue(b), e, id);
      if Find(Queue(b), id).Some? {
        FlagsAreHistory(b, id);
        FoundHasId(Queue(b), id);
        FoundIffListed(Queue(b), id);
        FlagsStep(Queue(b), e, Find(Queue(b), id).value, DispatchTime(b, id), RunningSeen(b, id));
      }
  }

  /**
   * What a reconcile pass does to a dispatching message in any run, told from the history: it is
   * completed exactly when its user message has persisted and its turn has run and stopped; it is
   * requeued exactly when two minutes have passed since it was dispatched without any sign,
   * then or now, that its turn ran; otherwise it stays.
   */
  lemma DispatchOutcome(h: History, id: Id, now: int, observed: map<Id, Observation>)
    requires Legal(h) && Find(Queue(h), id).Some? && Find(Queue(h), id).value.status.Dispatching?
    ensures DispatchTime(h, id).Some?
    ensures var after := Find(Queue(Then(h, Reconciled(now, observed))), id);
      if id !in observed then after == Find(Queue(h), id)
      else
        var o := observed[id];
        && (after.None? <==> o.userMessagePersisted && !o.turnRunning && (RunningSeen(h, id) || o.assistantReplyPersisted))
        && (after.Some? && after.value.status.Queued? <==>
              && !o.turnRunning && !RunningSeen(h, id) && !o.assistantReplyPersisted
              && DispatchTime(h, id).value + QUEUED_SEND_STUCK_DISPATCH_MS <= now)
  {
    FlagsAreHistory(h, id);
    Conservation(h);
    FoundHasId(Queue(h), id);
    FoundStep(Queue(h), Reconciled(now, observed), id);
  }
}
