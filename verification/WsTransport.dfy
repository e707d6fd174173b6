/**
 * The reconnecting request/response transport. Public methods, socket events and timer
 * callbacks are atomic steps; sockets and timers are identified by number, and what the
 * environment does with them is kept beside the transport's own fields.
 */
module WsTransport {
  import opened Wrappers
  import opened WsHistory

  datatype TransportState = Connecting | Open | Reconnecting | Closed | Suspended | Disposed

  /** WebSocket.readyState: 0, 1, 2, 3. */
  datatype ReadyState = SocketConnecting | SocketOpen | SocketClosing | SocketClosed

  type SocketId = nat
  type TimerId = nat

  const RECONNECT_DELAYS_MS: seq<nat> := [500, 1_000, 2_000, 4_000, 8_000]

  function ReconnectDelay(attempt: nat): nat {
    RECONNECT_DELAYS_MS[if attempt < |RECONNECT_DELAYS_MS| then attempt else |RECONNECT_DELAYS_MS| - 1]
  }

  function PowerOfTwo(n: nat): nat {
    if n == 0 then 1 else 2 * PowerOfTwo(n - 1)
  }

  /** Half a second, doubled with every attempt until the fifth. */
  lemma ReconnectDelayExactly(attempt: nat)
    ensures ReconnectDelay(attempt) == 500 * PowerOfTwo(if attempt < 5 then attempt else 4)
  {
    assert PowerOfTwo(1) == 2 && PowerOfTwo(2) == 4 && PowerOfTwo(3) == 8 && PowerOfTwo(4) == 16;
  }

  /** The sockets after close() on the current one, if there is one: its close event is still to come. */
  function CloseAt(sockets: seq<ReadyState>, ws: Option<SocketId>): (r: seq<ReadyState>)
    ensures |r| == |sockets|
  {
    if ws.None? || ws.value >= |sockets| || sockets[ws.value] == SocketClosed then sockets
    else sockets[ws.value := SocketClosing]
  }

  class Transport {
    // The transport's fields.
    var ws: Option<SocketId>
    var nextId: nat
    var pending: map<nat, bool>  // request id -> whether its promise has a timeout
    var outboundQueue: seq<nat>
    var reconnectAttempt: nat
    var reconnectTimer: Option<TimerId>
    var disposed: bool
    var hasOpened: bool
    var state: TransportState

    // The environment: every socket ever created, and the timers that can still fire.
    var sockets: seq<ReadyState>
    var requestTimers: set<nat>  // removing an id from it is clearTimeout
    var liveReconnectTimers: nat  // timers set and neither cleared nor fired
    var reconnectDelay: nat  // delay of the last one set
    var timersCreated: nat

    // What has happened.
    ghost var history: History
    ghost var opens: nat
    ghost var reconnectCallbacks: nat

    /** The request fields are what the history determines. */
    ghost predicate Tracks()
      reads this
    {
      && Lawful(history)
      && nextId == IssuedCount(history) + 1
      && pending == Outstanding(history)
      && outboundQueue == Unwritten(history)
      && requestTimers == LiveTimers(history)
    }

    /** No superseded socket is left connecting or open. */
    ghost predicate NoLeak()
      reads this
    {
      forall s | 0 <= s < |sockets| && (sockets[s] == SocketConnecting || sockets[s] == SocketOpen) :: ws == Some(s)
    }

    /** The state label fixes the wiring. */
    ghost predicate ValidWiring()
      reads this
    {
      && (ws.Some? ==> ws.value < |sockets| && sockets[ws.value] != SocketClosed)
      && liveReconnectTimers == (if reconnectTimer.Some? then 1 else 0)
      && (disposed <==> state == Disposed)
      && (hasOpened <==> opens > 0)
      && reconnectCallbacks == (if opens == 0 then 0 else opens - 1)
      && (state == Connecting || state == Reconnecting || state == Open <==> ws.Some?)
      && (state == Closed <==> reconnectTimer.Some?)
      && (state == Connecting || state == Reconnecting ==> sockets[ws.value] != SocketOpen)
      && (state == Connecting ==> reconnectAttempt == 0)
      && (state == Reconnecting || state == Closed ==> reconnectAttempt > 0)
      && (state == Open ==> opens > 0 && sockets[ws.value] != SocketConnecting)
      && (state == Open && sockets[ws.value] == SocketOpen ==> outboundQueue == [])
      && (state == Closed ==> reconnectDelay == ReconnectDelay(reconnectAttempt - 1))
    }

    ghost predicate Valid()
      reads this
    {
      && Tracks()
      && ValidWiring()
      && NoLeak()
      && (state != Open ==> forall id | id in pending :: id in outboundQueue)
    }

    constructor ()
      ensures Valid() && state == Connecting && nextId == 1
      ensures pending == map[] && outboundQueue == [] && history == Start
    {
      ws, nextId, pending, outboundQueue := None, 1, map[], [];
      reconnectAttempt, reconnectTimer, disposed, hasOpened, state := 0, None, false, false, Connecting;
      sockets, requestTimers := [], {};
      liveReconnectTimers, reconnectDelay, timersCreated := 0, 0, 0;
      history, opens, reconnectCallbacks := Start, 0, 0;
      new;
      Connect();
    }

    // ----- Private helpers --------------------------------------------------

    /** A promise settles at most once: the precondition is what each caller must show. */
    ghost method Settle(id: nat, outcome: Outcome)
      requires MayFollow(history, Settled(id, outcome))
      modifies this`history
      ensures history == Then(old(history), Settled(id, outcome))
    {
      history := Then(history, Settled(id, outcome));
    }

    /** WebSocket.send on an open socket. */
    ghost method Write(id: nat)
      requires MayFollow(history, Written(id))
      modifies this`history
      ensures history == Then(old(history), Written(id))
    {
      history := Then(history, Written(id));
    }

    method Connect()
      requires Tracks() && !disposed && forall id | id in pending :: id in outboundQueue
      requires ws.None? && reconnectTimer.None? && liveReconnectTimers == 0 && NoLeak()
      requires (hasOpened <==> opens > 0) && reconnectCallbacks == (if opens == 0 then 0 else opens - 1)
      modifies this`ws, this`state, this`sockets
      ensures Valid()
      ensures state == if reconnectAttempt > 0 then Reconnecting else Connecting
      ensures ws == Some(|old(sockets)|) && sockets == old(sockets) + [SocketConnecting]
    {
      if disposed {
        return;
      }
      state := if reconnectAttempt > 0 then Reconnecting else Connecting;
      ws := Some(|sockets|);
      sockets := sockets + [SocketConnecting];
    }

    /** socket.close(): the close event is delivered later, by SocketCloses. */
    method CloseSocket(s: SocketId)
      requires s < |sockets|
      modifies this`sockets
      ensures sockets == CloseAt(old(sockets), Some(s))
    {
      if sockets[s] != SocketClosed {
        sockets := sockets[s := SocketClosing];
      }
    }

    method CancelReconnectTimer()
      requires liveReconnectTimers == (if reconnectTimer.Some? then 1 else 0)
      modifies this`reconnectTimer, this`liveReconnectTimers
      ensures reconnectTimer == None && liveReconnectTimers == 0
    {
      if reconnectTimer.Some? {
        liveReconnectTimers := liveReconnectTimers - 1;
        reconnectTimer := None;
      }
    }

    /** Every pending request is settled with `outcome`, and nothing else happens. */
    method RejectPending(outcome: Outcome)
      requires Lawful(history) && pending == Outstanding(history) && requestTimers == LiveTimers(history)
      modifies this`pending, this`requestTimers, this`history
      ensures Lawful(history) && pending == map[] == Outstanding(history) && requestTimers == LiveTimers(history)
      ensures IssuedCount(history) == IssuedCount(old(history)) && Unwritten(history) == []
      ensures SettlesAll(old(history), history, old(pending).Keys, outcome)
    {
      assert old(pending).Keys - pending.Keys == {};
      while pending.Keys != {}
        invariant pending.Keys <= old(pending).Keys
        invariant Lawful(history) && pending == Outstanding(history) && requestTimers == LiveTimers(history)
        invariant IssuedCount(history) == IssuedCount(old(history))
        invariant SettlesAll(old(history), history, old(pending).Keys - pending.Keys, outcome)
        decreases pending.Keys
      {
        var id :| id in pending.Keys;
        requestTimers := requestTimers - {id};
        ghost var before := old(pending).Keys - pending.Keys;
        pending := pending - {id};
        assert old(pending).Keys - pending.Keys - {id} == before;
        Settle(id, outcome);
      }
      assert pending == map[] && old(pending).Keys - {} == old(pending).Keys;
      NothingLeft(history);
    }

    /** What dispose and stopReconnecting share: cancel the timer, settle everything, let the socket go. */
    method Abandon(outcome: Outcome)
      requires Tracks()
      requires liveReconnectTimers == (if reconnectTimer.Some? then 1 else 0)
      requires ws.Some? ==> ws.value < |sockets|
      modifies this`reconnectTimer, this`liveReconnectTimers, this`pending, this`requestTimers, this`history
      modifies this`outboundQueue, this`ws, this`sockets
      ensures Tracks() && pending == map[] && outboundQueue == []
      ensures reconnectTimer == None && liveReconnectTimers == 0 && ws == None && sockets == CloseAt(old(sockets), old(ws))
      ensures SettlesAll(old(history), history, old(pending).Keys, outcome)
    {
      CancelReconnectTimer();
      RejectPending(outcome);
      outboundQueue := [];
      if ws.Some? {
        CloseSocket(ws.value);
      }
      ws := None;
    }

    /** The close handler of the current socket. */
    method LoseConnection()
      requires Tracks()
      requires liveReconnectTimers == (if reconnectTimer.Some? then 1 else 0) && (disposed <==> state == Disposed)
      modifies this`ws, this`outboundQueue, this`pending, this`requestTimers, this`history, this`state
      modifies this`reconnectAttempt, this`reconnectTimer, this`liveReconnectTimers, this`reconnectDelay, this`timersCreated
      ensures Tracks() && ws == None && pending == map[] && outboundQueue == []
      ensures SettlesAll(old(history), history, old(pending).Keys, ConnectionClosed)
      ensures disposed ==>
        && state == Disposed && reconnectTimer == old(reconnectTimer)
        && liveReconnectTimers == old(liveReconnectTimers)
      ensures !disposed ==>
        && state == Closed && reconnectTimer.Some? && liveReconnectTimers == 1
        && reconnectAttempt == old(reconnectAttempt) + 1 && reconnectDelay == ReconnectDelay(old(reconnectAttempt))
    {
      hide Lawful, Outstanding, Unwritten, LiveTimers, SettlesAll;
      ws := None;
      outboundQueue := [];
      RejectPending(ConnectionClosed);
      if disposed {
        state := Disposed;
        return;
      }
      state := Closed;
      ScheduleReconnect();
    }

    /** Remove a queued payload by request id. */
    method DropQueued(id: nat)
      modifies this`outboundQueue
      ensures outboundQueue == Without(old(outboundQueue), id)
    {
      var index := 0;
      while index < |outboundQueue| && outboundQueue[index] != id
        invariant index <= |outboundQueue| && id !in outboundQueue[..index]
        modifies {}
      {
        index := index + 1;
      }
      assert outboundQueue == outboundQueue[..index] + outboundQueue[index..];
      WithoutBehind(outboundQueue[..index], outboundQueue[index..], id);
      if index < |outboundQueue| {
        outboundQueue := outboundQueue[..index] + outboundQueue[index + 1..];
      }
    }

    predicate SocketIsOpen()
      reads this
    {
      ws.Some? && ws.value < |sockets| && sockets[ws.value] == SocketOpen
    }

    method Send(id: nat)
      requires SocketIsOpen() ==> MayFollow(history, Written(id))
      modifies this`outboundQueue, this`history
      ensures if SocketIsOpen()
        then outboundQueue == old(outboundQueue) && history == Then(old(history), Written(id))
        else outboundQueue == old(outboundQueue) + [id] && history == old(history)
    {
      if !SocketIsOpen() {
        outboundQueue := outboundQueue + [id];
        return;
      }
      Write(id);
    }

    /** Gives the next id to a new pending request, arms its timeout and sends it. */
    method Enlist(hasTimeout: bool)
      requires Tracks() && (SocketIsOpen() ==> outboundQueue == [])
      modifies this`nextId, this`requestTimers, this`pending, this`outboundQueue, this`history
      ensures Tracks() && nextId == old(nextId) + 1 && pending == old(pending)[old(nextId) := hasTimeout]
      ensures if SocketIsOpen()
        then outboundQueue == [] && history == Then(Then(old(history), Issued(old(nextId), hasTimeout)), Written(old(nextId)))
        else outboundQueue == old(outboundQueue) + [old(nextId)] && history == Then(old(history), Issued(old(nextId), hasTimeout))
    {
      var id := nextId;
      nextId := nextId + 1;
      history := Then(history, Issued(id, hasTimeout));
      requestTimers := requestTimers + if hasTimeout then {id} else {};
      pending := pending[id := hasTimeout];
      Send(id);
    }

    /** The open handler of the current socket. */
    method HandleOpen()
      requires Tracks() && SocketIsOpen()
      requires hasOpened <==> opens > 0
      modifies this`reconnectAttempt, this`hasOpened, this`state, this`outboundQueue, this`history
      modifies this`opens, this`reconnectCallbacks
      ensures Tracks()
      ensures state == Open && reconnectAttempt == 0 && outboundQueue == [] && hasOpened && opens == old(opens) + 1
      ensures history == Writing(old(history), old(outboundQueue))
      ensures reconnectCallbacks == old(reconnectCallbacks) + (if old(hasOpened) then 1 else 0)
    {
      reconnectAttempt := 0;
      var reopened := hasOpened;
      hasOpened := true;
      opens := opens + 1;
      state := Open;
      FlushQueue();
      if reopened {
        reconnectCallbacks := reconnectCallbacks + 1;
      }
    }

    /** Writes the whole queue, in order, and empties it. */
    method FlushQueue()
      requires Tracks() && SocketIsOpen()
      modifies this`outboundQueue, this`history
      ensures Tracks() && outboundQueue == []
      ensures history == Writing(old(history), old(outboundQueue))
    {
      while |outboundQueue| > 0
        invariant Tracks()
        invariant Writing(history, outboundQueue) == Writing(old(history), old(outboundQueue))
        decreases |outboundQueue|
      {
        var next := outboundQueue[0];
        outboundQueue := outboundQueue[1..];
        Write(next);
      }
    }

    /** Arms the timer of the next attempt; the delay grows with the attempts made. */
    method ScheduleReconnect()
      requires liveReconnectTimers == (if reconnectTimer.Some? then 1 else 0)
      modifies this`reconnectAttempt, this`reconnectTimer, this`liveReconnectTimers, this`reconnectDelay, this`timersCreated
      ensures reconnectAttempt == old(reconnectAttempt) + 1
      ensures reconnectTimer == Some(old(timersCreated)) && liveReconnectTimers == 1
      ensures reconnectDelay == ReconnectDelay(old(reconnectAttempt))
    {
      var delay := ReconnectDelay(reconnectAttempt);
      reconnectAttempt := reconnectAttempt + 1;
      if reconnectTimer.Some? {
        liveReconnectTimers := liveReconnectTimers - 1;
      }
      reconnectTimer := Some(timersCreated);
      timersCreated := timersCreated + 1;
      liveReconnectTimers := liveReconnectTimers + 1;
      reconnectDelay := delay;
    }

    // ----- Public methods ---------------------------------------------------

    /** The promise of a new request; None is the rejection of an empty method name. */
    method Request(name: string, hasTimeout: bool) returns (r: Option<nat>)
      requires Valid()
      modifies this`nextId, this`requestTimers, this`pending, this`outboundQueue, this`history
      ensures Valid()
      ensures name == "" ==> r == None && unchanged(this)
      ensures name != "" ==> r == Some(old(nextId)) && pending == old(pending)[old(nextId) := hasTimeout]
      ensures name != "" ==>
        if SocketIsOpen()
        then outboundQueue == [] && history == Then(Then(old(history), Issued(old(nextId), hasTimeout)), Written(old(nextId)))
        else outboundQueue == old(outboundQueue) + [old(nextId)] && history == Then(old(history), Issued(old(nextId), hasTimeout))
    {
      if |name| == 0 {
        return None;
      }
      r := Some(nextId);
      Enlist(hasTimeout);
    }

    method Dispose()
      requires Valid()
      modifies this
      ensures Valid() && state == Disposed && pending == map[] && outboundQueue == [] && nextId == old(nextId)
      ensures sockets == CloseAt(old(sockets), old(ws))
      ensures SettlesAll(old(history), history, old(pending).Keys, TransportDisposed)
    {
      hide Lawful, Outstanding, Unwritten, LiveTimers, SettlesAll;
      disposed := true;
      state := Disposed;
      Abandon(TransportDisposed);
    }

    /** Stops the reconnect loop; a no-op once disposed or suspended. */
    method StopReconnecting()
      requires Valid()
      modifies this
      ensures Valid() && nextId == old(nextId)
      ensures old(state) in {Disposed, Suspended} ==> unchanged(this)
      ensures old(state) !in {Disposed, Suspended} ==>
        && state == Suspended && pending == map[] && outboundQueue == []
        && sockets == CloseAt(old(sockets), old(ws))
        && SettlesAll(old(history), history, old(pending).Keys, ReconnectCancelled)
    {
      hide Lawful, Outstanding, Unwritten, LiveTimers, SettlesAll;
      if disposed || state == Suspended {
        return;
      }
      Abandon(ReconnectCancelled);
      state := Suspended;
    }

    /** Starts a fresh first attempt, keeping what is queued; a no-op when disposed, open or connecting. */
    method Reconnect()
      requires Valid()
      modifies this`ws, this`state, this`sockets
      modifies this`reconnectTimer, this`liveReconnectTimers, this`reconnectAttempt
      ensures Valid()
      ensures old(state) in {Disposed, Open, Connecting} ==> unchanged(this)
      ensures old(state) !in {Disposed, Open, Connecting} ==>
        && state == Connecting && ws == Some(|old(sockets)|)
        && sockets == CloseAt(old(sockets), old(ws)) + [SocketConnecting]
    {
      if disposed || state == Open || state == Connecting {
        return;
      }
      CancelReconnectTimer();
      var stale := ws;
      ws := None;
      if stale.Some? {
        CloseSocket(stale.value);
      }
      reconnectAttempt := 0;
      Connect();
    }

    // ----- Environment steps ------------------------------------------------

    /** The open event; on a superseded socket it may come after close() was called. */
    method SocketOpens(s: SocketId)
      requires Valid() && s < |sockets|
      requires sockets[s] == SocketConnecting || (sockets[s] == SocketClosing && ws != Some(s))
      modifies this`sockets, this`reconnectAttempt, this`hasOpened, this`state, this`outboundQueue, this`history
      modifies this`opens, this`reconnectCallbacks
      ensures Valid() && sockets == if ws == Some(s) then old(sockets)[s := SocketOpen] else old(sockets)
      ensures ws != Some(s) ==>
        && state == old(state) && history == old(history) && outboundQueue == old(outboundQueue)
        && reconnectAttempt == old(reconnectAttempt) && reconnectCallbacks == old(reconnectCallbacks)
      ensures ws == Some(s) ==>
        && state == Open && reconnectAttempt == 0 && outboundQueue == []
        && history == Writing(old(history), old(outboundQueue))
        && reconnectCallbacks == old(reconnectCallbacks) + (if old(hasOpened) then 1 else 0)
    {
      if sockets[s] == SocketConnecting {
        sockets := sockets[s := SocketOpen];
      }
      if ws != Some(s) {
        return;
      }
      HandleOpen();
    }

    /** The socket begins to close or fails; its close event comes later. */
    method SocketFails(s: SocketId)
      requires Valid() && s < |sockets| && sockets[s] != SocketClosed
      modifies this`sockets
      ensures Valid() && sockets == old(sockets)[s := SocketClosing]
    {
      sockets := sockets[s := SocketClosing];
    }

    /** A decoded response arrives, also on a socket that is closing; the server answers only ids it was sent. */
    method SocketMessage(s: SocketId, id: nat, isError: bool)
      requires Valid() && s < |sockets| && sockets[s] != SocketClosed
      requires ws == Some(s) ==> id !in outboundQueue
      modifies this`pending, this`requestTimers, this`history
      ensures Valid()
      ensures if ws == Some(s) && id in old(pending)
        then pending == old(pending) - {id}
          && history == Then(old(history), Settled(id, if isError then RejectedByServer else Resolved))
        else pending == old(pending) && history == old(history)
    {
      if ws != Some(s) {
        return;
      }
      if id !in pending {
        return;
      }
      WithoutAbsent(outboundQueue, id);
      var outcome := if isError then RejectedByServer else Resolved;
      requestTimers := requestTimers - {id};
      pending := pending - {id};
      Settle(id, outcome);
    }

    /** The close event of a socket, current or superseded. */
    method SocketCloses(s: SocketId)
      requires Valid() && s < |sockets| && sockets[s] != SocketClosed
      modifies this
      ensures Valid() && sockets == old(sockets)[s := SocketClosed] && nextId == old(nextId)
      ensures old(ws) != Some(s) ==>
        && ws == old(ws) && state == old(state) && history == old(history) && pending == old(pending)
        && outboundQueue == old(outboundQueue) && reconnectTimer == old(reconnectTimer)
      ensures old(ws) == Some(s) ==>
        && state == Closed && pending == map[] && outboundQueue == []
        && SettlesAll(old(history), history, old(pending).Keys, ConnectionClosed)
        && reconnectAttempt == old(reconnectAttempt) + 1
    {
      hide Lawful, Outstanding, Unwritten, LiveTimers, SettlesAll;
      sockets := sockets[s := SocketClosed];
      if ws != Some(s) {
        return;
      }
      LoseConnection();
    }

    /** A request's timeout fires; only timers that were not cleared can. */
    method RequestTimeout(id: nat)
      requires Valid() && id in requestTimers
      modifies this`requestTimers, this`pending, this`outboundQueue, this`history
      ensures Valid() && pending == old(pending) - {id} && outboundQueue == Without(old(outboundQueue), id)
      ensures history == Then(old(history), Settled(id, TimedOut))
    {
      TimeoutIsOutstanding(history, id);
      if state != Open {
        StillQueued(history, id);
      }
      requestTimers := requestTimers - {id};
      pending := pending - {id};
      DropQueued(id);
      Settle(id, TimedOut);
    }

    /** A live reconnect timer fires. */
    method ReconnectTimerFires()
      requires Valid() && liveReconnectTimers > 0
      modifies this`ws, this`state, this`sockets, this`reconnectTimer, this`liveReconnectTimers
      ensures Valid() && state == Reconnecting && old(state) == Closed
    {
      liveReconnectTimers := liveReconnectTimers - 1;
      reconnectTimer := None;
      Connect();
    }
  }

  /**
   * Every reachable state: issued ids are pending or settled and not both, outside Open the
   * queue is exactly the pending ids in ascending order, there is never both a socket and a
   * reconnect timer, and no socket but the current one is connecting or open.
   */
  lemma ReachableState(t: Transport)
    requires t.Valid()
    ensures forall id :: id in t.pending || id in SettledIds(t.history) <==> 1 <= id < t.nextId
    ensures t.pending.Keys !! SettledIds(t.history)
    ensures Ascending(t.outboundQueue) && forall id | id in t.outboundQueue :: id in t.pending
    ensures t.state != Open ==> forall id | id in t.pending :: id in t.outboundQueue
    ensures t.ws.None? || t.reconnectTimer.None?
    ensures forall s | 0 <= s < |t.sockets| && t.ws != Some(s) :: t.sockets[s] == SocketClosing || t.sockets[s] == SocketClosed
    ensures forall id :: id in t.requestTimers <==> id in t.pending && t.pending[id]
  {
    Conservation(t.history);
  }

  datatype Step =
    | DoRequest(name: string, hasTimeout: bool)
    | DoDispose
    | DoStopReconnecting
    | DoReconnect
    | Opens(s: SocketId)
    | Fails(s: SocketId)
    | Message(s: SocketId, id: nat, isError: bool)
    | Closes(s: SocketId)
    | Timeout(id: nat)
    | ReconnectFires

  /** Any run: whatever order calls, socket events and timers come in, the properties hold at its end. */
  method Run(steps: seq<Step>) returns (t: Transport)
    ensures fresh(t) && t.Valid() && Lawful(t.history)
  {
    t := new Transport();
    for i := 0 to |steps|
      invariant fresh(t) && t.Valid()
    {
      match steps[i] {
        case DoRequest(name, hasTimeout) => var _ := t.Request(name, hasTimeout);
        case DoDispose => t.Dispose();
        case DoStopReconnecting => t.StopReconnecting();
        case DoReconnect => t.Reconnect();
        case Opens(s) =>
          if s < |t.sockets| && (t.sockets[s] == SocketConnecting || (t.sockets[s] == SocketClosing && t.ws != Some(s))) {
            t.SocketOpens(s);
          }
        case Fails(s) => if s < |t.sockets| && t.sockets[s] != SocketClosed { t.SocketFails(s); }
        case Message(s, id, isError) =>
          if s < |t.sockets| && t.sockets[s] != SocketClosed && (t.ws == Some(s) ==> id !in t.outboundQueue) {
            t.SocketMessage(s, id, isError);
          }
        case Closes(s) => if s < |t.sockets| && t.sockets[s] != SocketClosed { t.SocketCloses(s); }
        case Timeout(id) => if id in t.requestTimers { t.RequestTimeout(id); }
        case ReconnectFires => if t.liveReconnectTimers > 0 { t.ReconnectTimerFires(); }
      }
    }
  }
}
