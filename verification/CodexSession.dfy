/**
 * One session with a Codex app-server over JSON-RPC. Calls, lines from the server, timers and
 * the exit of the process are atomic steps; whether the server's stdin is writable when a message
 * is to be written is up to the environment, and so are the random request ids, which never repeat.
 */
module CodexSession {
  import opened Wrappers
  import opened RequestKinds
  import opened Text
  import opened CodexHistory

  datatype PendingApproval = PendingApproval(jsonRpcId: JsonId, rpcMethod: string, requestKind: RequestKind)

  datatype Response = Done | UnknownSession | UnknownRequest | CannotWrite

  function RequestKindForMethod(rpcMethod: string): Option<RequestKind> {
    if rpcMethod == "item/commandExecution/requestApproval" then Some(Command)
    else if rpcMethod == "item/fileRead/requestApproval" then Some(FileRead)
    else if rpcMethod == "item/fileChange/requestApproval" then Some(FileChange)
    else None
  }

  function MethodForKind(kind: RequestKind): string {
    match kind
    case Command => "item/commandExecution/requestApproval"
    case FileRead => "item/fileRead/requestApproval"
    case FileChange => "item/fileChange/requestApproval"
  }

  lemma KindHasOneMethod(rpcMethod: string)
    ensures RequestKindForMethod(rpcMethod).Some? ==> MethodForKind(RequestKindForMethod(rpcMethod).value) == rpcMethod
  {
  }

  predicate AsksUser(rpcMethod: string) {
    rpcMethod == "item/tool/requestUserInput"
  }

  /** The request whose pending key is String(id). */
  function KeyOf(id: JsonId): Option<nat> {
    match id
    case Number(n) => if n >= 0 then Some(n) else None
    case Text(s) => if IsCanonicalDecimal(s) then Some(DecimalValue(s)) else None
  }

  /** String(id). */
  function JsonText(id: JsonId): string {
    match id
    case Number(n) => if n >= 0 then Decimal(n) else "-" + Decimal(-n)
    case Text(s) => s
  }

  lemma DecimalInjective(m: nat, n: nat)
    ensures Decimal(m) == Decimal(n) <==> m == n
  {
    DecimalRead(m);
    DecimalRead(n);
  }

  /** The key a response names is the one that is spelled as its id, whether that is a number or a text. */
  lemma KeyExactly(response: JsonId, id: nat)
    ensures KeyOf(response) == Some(id) <==> JsonText(response) == Decimal(id)
  {
    hide AllDecimal, DecimalValue, Decimal;
    DecimalRead(id);
    match response
    case Number(n) =>
      if n >= 0 {
        DecimalInjective(n, id);
      } else {
        NoSign(id, Decimal(-n));
      }
    case Text(s) =>
      if IsCanonicalDecimal(s) {
        DecimalWritten(s);
      }
  }

  lemma NoSign(id: nat, digits: string)
    ensures Decimal(id) != "-" + digits
  {
    DecimalRead(id);
    assert ("-" + digits)[0] == '-';
  }

  /** How the manager means to answer a server request. */
  function ExpectedReply(rpcMethod: string): Expected {
    if RequestKindForMethod(rpcMethod).Some? then Approval(RequestKindForMethod(rpcMethod).value)
    else if AsksUser(rpcMethod) then UserInput
    else Unsupported
  }

  /** Which methods wait for a decision, and on what; which for answers; all others are refused. */
  lemma ExpectedReplyExactly(rpcMethod: string)
    ensures ExpectedReply(rpcMethod) == Approval(Command) <==> rpcMethod == "item/commandExecution/requestApproval"
    ensures ExpectedReply(rpcMethod) == Approval(FileRead) <==> rpcMethod == "item/fileRead/requestApproval"
    ensures ExpectedReply(rpcMethod) == Approval(FileChange) <==> rpcMethod == "item/fileChange/requestApproval"
    ensures ExpectedReply(rpcMethod) == UserInput <==> rpcMethod == "item/tool/requestUserInput"
  {
  }

  class Session {
    var pending: map<nat, string>  // request id -> method; its timer is live exactly as long as it is here
    var pendingApprovals: map<string, PendingApproval>
    var pendingUserInputs: map<string, JsonId>
    var nextRequestId: nat
    var stopping: bool
    var listed: bool  // the manager still knows this session
    ghost var history: History

    /** The server requests waiting for an answer are the unanswered ones. */
    ghost predicate TracksRequests()
      reads this
    {
      && (forall name | name in pendingApprovals ::
            && name in Unanswered(history)
            && Unanswered(history)[name] == (pendingApprovals[name].jsonRpcId, Approval(pendingApprovals[name].requestKind)))
      && (forall name | name in pendingUserInputs ::
            name in Unanswered(history) && Unanswered(history)[name] == (pendingUserInputs[name], UserInput))
      && (forall name | name in Unanswered(history) :: name in pendingApprovals || name in pendingUserInputs)
    }

    ghost predicate Valid()
      reads this
    {
      && Lawful(history) && !UnsupportedWaits(history)
      && nextRequestId == SentCount(history) + 1
      && pending.Keys == Outstanding(history) + Orphans(history)
      && TracksRequests()
      && (stopping ==> !listed)
    }

    constructor ()
      ensures Valid() && listed && nextRequestId == 1 && history == Start
    {
      pending, pendingApprovals, pendingUserInputs := map[], map[], map[];
      nextRequestId, stopping, listed, history := 1, false, true, Start;
    }

    /** resolve or reject: a promise that is already settled does not notice. */
    ghost method Settle(id: nat, outcome: Outcome)
      requires Lawful(history) && !UnsupportedWaits(history) && outcome != NotWritten
      requires id in Outstanding(history) || id in Orphans(history)
      modifies this`history
      ensures Lawful(history)
      ensures history == Then(old(history), if id in Outstanding(old(history)) then Settled(id, outcome) else Released(id))
    {
      history := Then(history, if id in Outstanding(history) then Settled(id, outcome) else Released(id));
    }

    /** A request is registered, then written; if that fails its promise is rejected but it stays registered. */
    method SendRequest(rpcMethod: string, writable: bool) returns (id: nat)
      requires Valid()
      modifies this`nextRequestId, this`pending, this`history
      ensures Valid() && id == old(nextRequestId) && nextRequestId == id + 1
      ensures pending == old(pending)[id := rpcMethod]
      ensures history == if writable then Then(old(history), Sent(id))
                         else Then(Then(old(history), Sent(id)), Settled(id, NotWritten))
    {
      Conservation(history);
      id := nextRequestId;
      nextRequestId := nextRequestId + 1;
      pending := pending[id := rpcMethod];
      history := Then(history, Sent(id));
      if !writable {
        history := Then(history, Settled(id, NotWritten));
      }
    }

    /** The timer of a request fires: it is live as long as the request is pending. */
    method RequestTimeout(id: nat)
      requires Valid() && id in pending
      modifies this`pending, this`history
      ensures Valid() && pending == old(pending) - {id}
      ensures id in Outstanding(old(history)) ==> history == Then(old(history), Settled(id, TimedOut))
      ensures id in SettledIds(old(history)) ==> history == Then(old(history), Released(id))
    {
      Conservation(history);
      pending := pending - {id};
      Settle(id, TimedOut);
    }

    /** A response settles the request it names once; a late or unknown one does nothing. */
    method HandleResponse(responseId: JsonId, error: Option<string>)
      requires Valid()
      modifies this`pending, this`history
      ensures Valid()
      ensures forall id | id in old(pending) && Decimal(id) == JsonText(responseId) ::
        && pending == old(pending) - {id}
        && (id in Outstanding(old(history)) ==> history == Then(old(history),
              Settled(id, if error.Some? && error.value != "" then Failed else Resolved)))
        && (id in SettledIds(old(history)) ==> history == Then(old(history), Released(id)))
      ensures (forall id | id in old(pending) :: Decimal(id) != JsonText(responseId)) ==>
        pending == old(pending) && history == old(history)
    {
      Conservation(history);
      var key := KeyOf(responseId);
      forall id: nat ensures key == Some(id) <==> Decimal(id) == JsonText(responseId) {
        KeyExactly(responseId, id);
      }
      if key.None? || key.value !in pending {
        return;
      }
      pending := pending - {key.value};
      if error.Some? && error.value != "" {
        Settle(key.value, Failed);
        return;
      }
      Settle(key.value, Resolved);
    }

    /** A request from the server waits for the user, or is refused at once. */
    method HandleServerRequest(requestId: string, jsonRpcId: JsonId, rpcMethod: string, writable: bool)
      requires Valid() && requestId !in Names(history)
      modifies this`pendingApprovals, this`pendingUserInputs, this`history
      ensures Valid()
      ensures var received := Then(old(history), Received(requestId, jsonRpcId, ExpectedReply(rpcMethod)));
        history == match ExpectedReply(rpcMethod)
          case Unsupported =>
            Then(received, if writable then Replied(requestId, jsonRpcId, Error(-32601)) else Dropped(requestId))
          case _ => received
      ensures pendingApprovals ==
        if RequestKindForMethod(rpcMethod).None? then old(pendingApprovals)
        else old(pendingApprovals)[requestId := PendingApproval(jsonRpcId, rpcMethod, RequestKindForMethod(rpcMethod).value)]
      ensures pendingUserInputs ==
        if ExpectedReply(rpcMethod) == UserInput then old(pendingUserInputs)[requestId := jsonRpcId] else old(pendingUserInputs)
    {
      KindHasOneMethod(rpcMethod);
      var requestKind := RequestKindForMethod(rpcMethod);
      if requestKind.Some? {
        RegisterApproval(requestId, PendingApproval(jsonRpcId, MethodForKind(requestKind.value), requestKind.value));
      } else if AsksUser(rpcMethod) {
        RegisterUserInput(requestId, jsonRpcId);
      } else {
        RefuseUnsupported(requestId, jsonRpcId, writable);
      }
    }

    method RegisterApproval(requestId: string, request: PendingApproval)
      requires Valid() && requestId !in Names(history)
      modifies this`pendingApprovals, this`history
      ensures Valid() && pendingApprovals == old(pendingApprovals)[requestId := request]
      ensures history == Then(old(history), Received(requestId, request.jsonRpcId, Approval(request.requestKind)))
    {
      Conservation(history);
      history := Then(history, Received(requestId, request.jsonRpcId, Approval(request.requestKind)));
      pendingApprovals := pendingApprovals[requestId := request];
    }

    method RegisterUserInput(requestId: string, jsonRpcId: JsonId)
      requires Valid() && requestId !in Names(history)
      modifies this`pendingUserInputs, this`history
      ensures Valid() && pendingUserInputs == old(pendingUserInputs)[requestId := jsonRpcId]
      ensures history == Then(old(history), Received(requestId, jsonRpcId, UserInput))
    {
      Conservation(history);
      history := Then(history, Received(requestId, jsonRpcId, UserInput));
      pendingUserInputs := pendingUserInputs[requestId := jsonRpcId];
    }

    method RefuseUnsupported(requestId: string, jsonRpcId: JsonId, writable: bool)
      requires Valid() && requestId !in Names(history)
      modifies this`history
      ensures Valid()
      ensures history == Then(Then(old(history), Received(requestId, jsonRpcId, Unsupported)),
                              if writable then Replied(requestId, jsonRpcId, Error(-32601)) else Dropped(requestId))
    {
      Conservation(history);
      history := Then(history, Received(requestId, jsonRpcId, Unsupported));
      history := Then(history, if writable then Replied(requestId, jsonRpcId, Error(-32601)) else Dropped(requestId));
    }

    /** The user decides on an approval: the entry goes before the reply is written. */
    method RespondToRequest(requestId: string, decision: string, writable: bool) returns (response: Response)
      requires Valid()
      modifies this`pendingApprovals, this`history
      ensures Valid()
      ensures response == if !listed then UnknownSession
                          else if requestId !in old(pendingApprovals) then UnknownRequest
                          else if writable then Done else CannotWrite
      ensures pendingApprovals == if listed then old(pendingApprovals) - {requestId} else old(pendingApprovals)
      ensures history == match response
        case Done => Then(old(history), Replied(requestId, old(pendingApprovals)[requestId].jsonRpcId, Decision(decision)))
        case CannotWrite => Then(old(history), Dropped(requestId))
        case _ => old(history)
    {
      if !listed {
        return UnknownSession;
      }
      if requestId !in pendingApprovals {
        return UnknownRequest;
      }
      var pendingRequest := pendingApprovals[requestId];
      pendingApprovals := pendingApprovals - {requestId};
      if !writable {
        history := Then(history, Dropped(requestId));
        return CannotWrite;
      }
      history := Then(history, Replied(requestId, pendingRequest.jsonRpcId, Decision(decision)));
      return Done;
    }

    method RespondToUserInput(requestId: string, answers: string, writable: bool) returns (response: Response)
      requires Valid()
      modifies this`pendingUserInputs, this`history
      ensures Valid()
      ensures response == if !listed then UnknownSession
                          else if requestId !in old(pendingUserInputs) then UnknownRequest
                          else if writable then Done else CannotWrite
      ensures pendingUserInputs == if listed then old(pendingUserInputs) - {requestId} else old(pendingUserInputs)
      ensures history == match response
        case Done => Then(old(history), Replied(requestId, old(pendingUserInputs)[requestId], Answers(answers)))
        case CannotWrite => Then(old(history), Dropped(requestId))
        case _ => old(history)
    {
      if !listed {
        return UnknownSession;
      }
      if requestId !in pendingUserInputs {
        return UnknownRequest;
      }
      var jsonRpcId := pendingUserInputs[requestId];
      pendingUserInputs := pendingUserInputs - {requestId};
      if !writable {
        history := Then(history, Dropped(requestId));
        return CannotWrite;
      }
      history := Then(history, Replied(requestId, jsonRpcId, Answers(answers)));
      return Done;
    }

    /** Every promise still open is rejected, every server request still open is dropped. */
    method StopSession()
      requires Valid()
      modifies this`pending, this`pendingApprovals, this`pendingUserInputs, this`stopping, this`listed, this`history
      ensures Valid() && !listed && Names(history) == Names(old(history))
      ensures !old(listed) ==>
        && history == old(history) && pending == old(pending)
        && pendingApprovals == old(pendingApprovals) && pendingUserInputs == old(pendingUserInputs)
      ensures old(listed) ==>
        && stopping && pending == map[] && pendingApprovals == map[] && pendingUserInputs == map[]
        && Outstanding(history) == {} && Unanswered(history) == map[]
        && (forall id | id in Outstanding(old(history)) :: OutcomeOf(history, id) == Some(Stopped))
        && (forall name | name in Unanswered(old(history)) :: EndOf(history, name) == Some(Dropped(name)))
    {
      if !listed {
        return;
      }
      stopping := true;
      listed := false;
      RejectPending();
      DropRequests();
    }

    method RejectPending()
      requires Valid()
      modifies this`pending, this`history
      ensures Valid() && pending == map[] && Outstanding(history) == {} && Unanswered(history) == Unanswered(old(history))
      ensures Names(history) == Names(old(history))
      ensures forall id | id in Outstanding(old(history)) :: OutcomeOf(history, id) == Some(Stopped)
    {
      while pending.Keys != {}
        invariant Valid() && Unanswered(history) == Unanswered(old(history)) && Names(history) == Names(old(history))
        invariant forall id | id in Outstanding(old(history)) :: id in Outstanding(history) || OutcomeOf(history, id) == Some(Stopped)
        decreases pending.Keys
      {
        var id :| id in pending.Keys;
        RejectOne(id);
      }
    }

    method RejectOne(id: nat)
      requires Valid() && id in pending
      modifies this`pending, this`history
      ensures Valid() && pending == old(pending) - {id}
      ensures history == Then(old(history), if id in Outstanding(old(history)) then Settled(id, Stopped) else Released(id))
    {
      Conservation(history);
      pending := pending - {id};
      Settle(id, Stopped);
    }

    method DropRequests()
      requires Valid()
      modifies this`pendingApprovals, this`pendingUserInputs, this`history
      ensures Valid() && pendingApprovals == map[] && pendingUserInputs == map[] && Unanswered(history) == map[]
      ensures Names(history) == Names(old(history))
      ensures Outstanding(history) == Outstanding(old(history)) && Orphans(history) == Orphans(old(history))
      ensures forall id :: OutcomeOf(history, id) == OutcomeOf(old(history), id)
      ensures forall name | name in Unanswered(old(history)) :: EndOf(history, name) == Some(Dropped(name))
    {
      DropAll();
      pendingApprovals := map[];
      pendingUserInputs := map[];
    }

    ghost method DropAll()
      requires Valid()
      modifies this`history
      ensures Lawful(history) && !UnsupportedWaits(history) && Unanswered(history) == map[]
      ensures SentCount(history) == SentCount(old(history)) && Names(history) == Names(old(history))
      ensures Outstanding(history) == Outstanding(old(history)) && Orphans(history) == Orphans(old(history))
      ensures forall id :: OutcomeOf(history, id) == OutcomeOf(old(history), id)
      ensures forall name | name in Unanswered(old(history)) :: EndOf(history, name) == Some(Dropped(name))
    {
      while Unanswered(history).Keys != {}
        invariant Lawful(history) && !UnsupportedWaits(history) && SentCount(history) == SentCount(old(history))
        invariant Names(history) == Names(old(history))
        invariant Outstanding(history) == Outstanding(old(history)) && Orphans(history) == Orphans(old(history))
        invariant forall id :: OutcomeOf(history, id) == OutcomeOf(old(history), id)
        invariant forall name | name in Unanswered(old(history)) ::
          name in Unanswered(history) || EndOf(history, name) == Some(Dropped(name))
        decreases Unanswered(history).Keys
      {
        var name :| name in Unanswered(history).Keys;
        history := Then(history, Dropped(name));
      }
    }

    /** The process ends by itself: the session is forgotten, but nothing is settled or answered. */
    method ProcessExits()
      requires Valid()
      modifies this`listed
      ensures Valid() && !listed
    {
      if stopping {
        return;
      }
      listed := false;
    }
  }

  /**
   * Every reachable state: each request sent is settled, or pending and not settled, and never
   * settled twice; the settled ones still pending are exactly those whose write failed and whose
   * timer has not fired; and each server request received is waiting, or was answered or dropped.
   */
  lemma ReachableState(s: Session)
    requires s.Valid()
    ensures forall id :: id in s.pending || id in SettledIds(s.history) <==> 1 <= id < s.nextRequestId
    ensures forall id :: id in s.pending && id in SettledIds(s.history) <==> id in Orphans(s.history)
    ensures forall id | id in Orphans(s.history) :: OutcomeOf(s.history, id) == Some(NotWritten)
    ensures s.pendingApprovals.Keys !! s.pendingUserInputs.Keys
    ensures forall name | name in Names(s.history) ::
              EndOf(s.history, name).Some? <==> name !in s.pendingApprovals && name !in s.pendingUserInputs
  {
    Conservation(s.history);
    OrphansAreUnwritten(s.history);
    EndedExactly(s.history);
    forall name | name in s.pendingApprovals ensures name !in s.pendingUserInputs {
      assert Unanswered(s.history)[name].1.Approval?;
    }
  }

  datatype Step =
    | Send(rpcMethod: string, writable: bool)
    | Timeout(id: nat)
    | ServerResponse(responseId: JsonId, error: Option<string>)
    | ServerRequest(requestId: string, jsonRpcId: JsonId, rpcMethod: string, writable: bool)
    | Decide(requestId: string, decision: string, writable: bool)
    | Answer(requestId: string, answers: string, writable: bool)
    | Stop
    | Exit

  /** Random request ids do not repeat. */
  predicate FreshIds(steps: seq<Step>) {
    forall i, j | 0 <= i < j < |steps| && steps[i].ServerRequest? && steps[j].ServerRequest? ::
      steps[i].requestId != steps[j].requestId
  }

  /** Any run: whatever order calls, lines, timers and the exit come in; a timer that is not live is skipped. */
  method Run(steps: seq<Step>) returns (s: Session)
    requires FreshIds(steps)
    ensures fresh(s) && s.Valid() && Lawful(s.history)
  {
    s := new Session();
    for i := 0 to |steps|
      invariant fresh(s) && s.Valid()
      invariant forall j | i <= j < |steps| && steps[j].ServerRequest? :: steps[j].requestId !in Names(s.history)
    {
      Take(s, steps[i]);
    }
  }

  method Take(s: Session, step: Step)
    requires s.Valid() && (step.ServerRequest? ==> step.requestId !in Names(s.history))
    modifies s
    ensures s.Valid()
    ensures Names(s.history) == Names(old(s.history)) + if step.ServerRequest? then {step.requestId} else {}
  {
    hide Lawful, Outstanding, Orphans, Unanswered;
    match step {
      case Send(rpcMethod, writable) => var _ := s.SendRequest(rpcMethod, writable);
      case Timeout(id) => if id in s.pending { Conservation(s.history); s.RequestTimeout(id); }
      case ServerResponse(responseId, error) => Conservation(s.history); s.HandleResponse(responseId, error);
      case ServerRequest(requestId, jsonRpcId, rpcMethod, writable) =>
        s.HandleServerRequest(requestId, jsonRpcId, rpcMethod, writable);
      case Decide(requestId, decision, writable) => var _ := s.RespondToRequest(requestId, decision, writable);
      case Answer(requestId, answers, writable) => var _ := s.RespondToUserInput(requestId, answers, writable);
      case Stop => s.StopSession();
      case Exit => s.ProcessExits();
    }
  }
}
