/** The password check as a machine: `bindAs` of ldapdir.go, the caller's context, the connection and the server
    all moving at once. */
module Bind {
  import opened Basics
  import opened Unavailable

  datatype Conn = NotDialed | Open | Closed

  /** Where the check stands. */
  datatype Phase =
    | Begin
    | CheckContext
    | Dialling
    | Registering
    | StartingTls
    | Binding
    | Failed(err: Err)
    | Done(result: Option<Err>)

  datatype State = State(
    password: string,
    startTls: bool,
    phase: Phase,
    ctx: Option<Err>,      // what ended the context, once it has ended
    conn: Conn,
    secured: bool,         // the connection has been moved to TLS
    hook: bool,            // the context's end will close the connection
    answer: Option<nat>,   // the result code the server gave the bind
    dials: nat,
    lost: bool,            // the connection ended before the check was done with it
    endedEarly: bool)      // the context ended before the check looked at it

  /** Everything that can happen: the outside first, then the check itself. */
  datatype Event =
    | ContextEnds(cause: Err)
    | PeerDrops
    | ServerAnswers(code: nat)
    | HookRuns
    | Decide               // a step that depends on nothing but the state
    | DialFails(err: Err)
    | TlsFails(err: Err)
    | BindBreaks(err: Err)

  /** An error of a library knows nothing of this package's two. */
  predicate Foreign(e: Err) {
    !Is(e, WrongPassword) && !Is(e, IsUnavailable)
  }

  /** What the client library returns for a bind that got no answer: no result code, or one of its own for an outage. */
  predicate NoAnswer(e: Err) {
    Foreign(e) && (FirstCode(e).None? || FirstCode(e).value in UNAVAILABLE_CODES)
  }

  /** Returning runs what was deferred: the hook is stopped, then the connection closed. */
  function Return(s: State, result: Option<Err>): State {
    s.(phase := Done(result), hook := false, conn := if s.conn == Open then Closed else s.conn)
  }

  function Abandoned(cause: Err): Option<Err> {
    AsUnavailable(Some(Wrap(cause)))
  }

  /** A step the check takes when nothing stands in its way. */
  function Decided(s: State): Option<State> {
    match s.phase
    case Begin =>
      Some(if s.password == "" then Return(s, Some(WrongPassword)) else s.(phase := CheckContext))
    case CheckContext =>
      Some(if s.ctx.Some? then Return(s, Abandoned(s.ctx.value)) else s.(phase := Dialling))
    case Dialling =>
      Some(s.(dials := s.dials + 1, conn := Open, phase := Registering))
    case Registering =>
      Some(s.(hook := true, phase := if s.startTls then StartingTls else Binding))
    case StartingTls =>
      if s.conn == Open then Some(s.(secured := true, phase := Binding)) else None
    case Binding =>
      (match s.answer
       case None => None
       case Some(code) => Some(if code == 0 then Return(s, None) else s.(phase := Failed(LdapError(code, None)))))
    case Failed(err) =>
      Some(if s.ctx.Some? then Return(s, Abandoned(s.ctx.value))
           else if HasCode(err, {INVALID_CREDENTIALS}) then Return(s, Some(WrongPassword))
           else Return(s, Fail(Some(Wrap(err)))))
    case Done(_) => None
  }

  /** The state after an event, if it can happen. */
  function After(s: State, e: Event): Option<State> {
    match e
    case ContextEnds(cause) =>
      if s.ctx.None? && cause in {Canceled, Deadline} then
        Some(s.(ctx := Some(cause), endedEarly := s.phase.Begin? || s.phase.CheckContext?))
      else None
    case PeerDrops => if s.conn == Open then Some(s.(conn := Closed, lost := true)) else None
    case ServerAnswers(code) =>
      if s.phase.Binding? && s.conn == Open && s.answer.None? then Some(s.(answer := Some(code))) else None
    case HookRuns => if s.hook && s.ctx.Some? then Some(s.(hook := false, conn := Closed, lost := true)) else None
    case Decide => Decided(s)
    case DialFails(err) =>
      if s.phase.Dialling? && Foreign(err) then Some(Return(s.(dials := s.dials + 1), Fail(Some(Wrap(err))))) else None
    case TlsFails(err) =>
      if s.phase.StartingTls? && Foreign(err) then Some(Return(s, Fail(Some(Wrap(err))))) else None
    case BindBreaks(err) =>
      if s.phase.Binding? && s.conn == Closed && NoAnswer(err) then Some(s.(phase := Failed(err))) else None
  }

  /** A state a check can start in; the context may have ended already. */
  ghost predicate Initial(s: State) {
    && s.phase == Begin && s.conn == NotDialed && !s.secured && !s.hook && s.answer.None? && s.dials == 0 && !s.lost
    && (s.ctx.Some? ==> s.ctx.value in {Canceled, Deadline})
    && s.endedEarly == s.ctx.Some?
  }

  /** The state after a run of events, if they can all happen in that order. */
  function AfterAll(s: State, events: seq<Event>): Option<State> {
    if events == [] then Some(s) else
      var before := AfterAll(s, events[..|events| - 1]);
      if before.None? then None else After(before.value, events[|events| - 1])
  }

  // ----- What every interleaving keeps -----

  /** An answer that came is passed on, unless an outage is: and that only when the context or the connection ended,
      or the answer was one. */
  ghost predicate Heard(s: State, code: nat, r: Option<Err>) {
    if Says(r, IsUnavailable) then s.ctx.Some? || s.lost || code in UNAVAILABLE_CODES
    else if code == 0 then r.None?
    else if code == INVALID_CREDENTIALS then Says(r, WrongPassword)
    else r.Some? && !Says(r, WrongPassword) && FirstCode(r.value) == Some(code)
  }

  ghost predicate Verdict(s: State, r: Option<Err>) {
    && (r.None? ==> s.answer == Some(0) && s.password != "")
    && (Says(r, WrongPassword) ==> s.password == "" || s.answer == Some(INVALID_CREDENTIALS))
    && !(Says(r, WrongPassword) && Says(r, IsUnavailable))
    && (r.Some? && !Says(r, WrongPassword) && !Says(r, IsUnavailable) ==>
        FirstCode(r.value).Some? && FirstCode(r.value).value !in UNAVAILABLE_CODES)
    && (s.answer.Some? ==> Heard(s, s.answer.value, r))
    && (s.password == "" ==> r == Some(WrongPassword))
    && (s.endedEarly && s.password != "" ==> Says(r, IsUnavailable))
  }

  ghost predicate Invariant(s: State) {
    && (s.ctx.Some? ==> s.ctx.value in {Canceled, Deadline})
    && (s.endedEarly ==> s.ctx.Some? && s.dials == 0)
    && s.dials <= 1
    && (s.conn == Closed && !s.phase.Done? ==> s.lost)
    && (s.password == "" ==> s.dials == 0 && (s.phase.Begin? || s.phase.Done?))
    && (s.conn.NotDialed? ==> !s.hook && s.answer.None?)
    && (s.dials == 0 ==> s.conn.NotDialed?)
    && (s.answer.Some? || s.phase.Binding? || s.phase.Failed? ==> s.startTls ==> s.secured)
    && (match s.phase
        case Begin => s.dials == 0
        case CheckContext => s.dials == 0
        case Dialling => s.dials == 0 && !s.endedEarly
        case Registering => s.dials == 1 && !s.conn.NotDialed? && s.answer.None?
        case StartingTls => s.dials == 1 && !s.conn.NotDialed? && s.answer.None? && (s.hook || s.conn == Closed)
        case Binding => s.dials == 1 && !s.conn.NotDialed? && (s.hook || s.conn == Closed)
        case Failed(err) => s.dials == 1 && Foreign(err) &&
                            (if s.answer.Some? && err == LdapError(s.answer.value, None) then s.answer.value != 0
                             else NoAnswer(err) && s.lost)
        case Done(r) => !s.hook && s.conn != Open && Verdict(s, r))
  }

  lemma StepKeeps(s: State, e: Event)
    requires Invariant(s) && After(s, e).Some?
    ensures Invariant(After(s, e).value)
  {
    hide Is, Fail, AsUnavailable, FirstCode, Decided, TransportFailure;
    match e {
      case Decide =>
        DecidedKeeps(s);
        DecideDecides(s);
      case DialFails(err) =>
        FailMeans(Wrap(err));
        WrappingMeans(err);
      case TlsFails(err) =>
        FailMeans(Wrap(err));
        WrappingMeans(err);
      case BindBreaks(_) =>
        if s.answer.Some? { AnswerMeans(s.answer.value); }
      case _ =>
    }
  }

  lemma DecidedKeeps(s: State)
    requires Invariant(s) && Decided(s).Some?
    ensures Invariant(Decided(s).value)
  {
    hide Is, Fail, AsUnavailable, FirstCode, Abandoned, TransportFailure;
    if s.ctx.Some? { AbandonedMeans(s.ctx.value); }
    if s.answer.Some? { AnswerMeans(s.answer.value); }
    if s.phase.Failed? { FailedKeeps(s); } else { RefusalMeans(); }
  }

  lemma FailedKeeps(s: State)
    requires Invariant(s) && s.phase.Failed?
    ensures Invariant(Decided(s).value)
  {
    hide Is, Fail, AsUnavailable, FirstCode, Abandoned, TransportFailure;
    if s.answer.Some? { AnswerMeans(s.answer.value); }
    WrappingMeans(s.phase.err);
    FailMeans(Wrap(s.phase.err));
    RefusalMeans();
    if s.ctx.Some? { AbandonedMeans(s.ctx.value); }
  }

  lemma AbandonedMeans(cause: Err)
    requires cause in {Canceled, Deadline}
    ensures Says(Abandoned(cause), IsUnavailable) && !Says(Abandoned(cause), WrongPassword)
  {}

  lemma RefusalMeans()
    ensures Is(WrongPassword, WrongPassword) && !Is(WrongPassword, IsUnavailable)
  {}

  lemma AnswerMeans(code: nat)
    ensures Foreign(LdapError(code, None)) && FirstCode(LdapError(code, None)) == Some(code)
    ensures !Is(Wrap(LdapError(code, None)), Transport) && !Is(Wrap(LdapError(code, None)), Deadline)
  {
    assert !Is(LdapError(code, None), Transport) && !Is(LdapError(code, None), Deadline);
  }

  lemma WrappingMeans(e: Err)
    ensures FirstCode(Wrap(e)) == FirstCode(e)
    ensures Is(Wrap(e), WrongPassword) == Is(e, WrongPassword) && Is(Wrap(e), IsUnavailable) == Is(e, IsUnavailable)
    ensures Fail(Some(Wrap(e))).Some?
  {}

  lemma {:induction false} RunKeeps(s: State, events: seq<Event>)
    requires Initial(s) && AfterAll(s, events).Some?
    ensures Invariant(AfterAll(s, events).value)
    ensures AfterAll(s, events).value.password == s.password && AfterAll(s, events).value.startTls == s.startTls
  {
    hide After, Invariant;
    if events == [] {
      StartsWell(s);
    } else {
      var init := events[..|events| - 1];
      RunKeeps(s, init);
      StepKeeps(AfterAll(s, init).value, events[|events| - 1]);
      SameCheck(AfterAll(s, init).value, events[|events| - 1]);
    }
  }

  lemma StartsWell(s: State)
    requires Initial(s)
    ensures Invariant(s)
  {}

  lemma SameCheck(s: State, e: Event)
    requires After(s, e).Some?
    ensures After(s, e).value.password == s.password && After(s, e).value.startTls == s.startTls
  {
    hide Foreign, NoAnswer, Decided, Return, Fail, Is, FirstCode;
    if e.Decide? {
      hide After;
      DecideDecides(s);
      SameDecided(s);
    } else {
      SameReturned(s);
    }
  }

  lemma SameDecided(s: State)
    requires Decided(s).Some?
    ensures Decided(s).value.password == s.password && Decided(s).value.startTls == s.startTls
  {
    hide Return, Abandoned, HasCode, Fail;
    SameReturned(s);
    match s.phase {
      case Failed(_) =>
      case Binding =>
      case _ =>
    }
  }

  lemma SameReturned(s: State)
    ensures forall r :: Return(s, r).password == s.password && Return(s, r).startTls == s.startTls
    ensures forall n, r :: Return(s.(dials := n), r).password == s.password &&
                           Return(s.(dials := n), r).startTls == s.startTls
  {}

  /** In every interleaving: success only when the server said so to a password that is not empty; a wrong password
      only for an empty one or on code 49; never that and an outage at once; any other error only with a result
      code that is no outage's; whatever the server said is passed on unless the context or connection ended or the
      answer was an outage; nothing dialled for an empty password or when the context had ended; no bind
      answered before the TLS that was asked for; and nothing left open. */
  lemma EveryVerdict(s: State, events: seq<Event>)
    requires Initial(s)
    requires AfterAll(s, events).Some? && AfterAll(s, events).value.phase.Done?
    ensures var end := AfterAll(s, events).value;
            var r := end.phase.result;
            && (r.None? ==> end.answer == Some(0) && s.password != "")
            && (Says(r, WrongPassword) ==> s.password == "" || end.answer == Some(INVALID_CREDENTIALS))
            && !(Says(r, WrongPassword) && Says(r, IsUnavailable))
            && (r.Some? && !Says(r, WrongPassword) && !Says(r, IsUnavailable) ==>
                FirstCode(r.value).Some? && FirstCode(r.value).value !in UNAVAILABLE_CODES)
            && (end.answer.Some? ==> Heard(end, end.answer.value, r) && (s.startTls ==> end.secured))
            && (s.password == "" ==> end.dials == 0 && r == Some(WrongPassword))
            && (end.endedEarly ==> end.dials == 0 && (s.password != "" ==> Says(r, IsUnavailable)))
            && end.dials <= 1 && end.conn != Open && !end.hook
  {
    RunKeeps(s, events);
  }

  // ----- A bind without an answer is an outage, and a cancelled one comes back -----

  /** Whatever else happens, a check whose context has ended when the bind fails says so, even on code 49. */
  lemma EndedContextIsUnavailable(s: State)
    requires Invariant(s) && s.phase.Failed? && s.ctx.Some?
    ensures Decided(s).Some? && Says(Decided(s).value.phase.result, IsUnavailable)
  {}

  /** A bind the server never answered is never held against the password. */
  lemma NoAnswerIsUnavailable(s: State)
    requires Invariant(s) && s.phase.Failed? && s.answer.None?
    ensures Decided(s).Some? && Says(Decided(s).value.phase.result, IsUnavailable)
  {
    FailMeans(Wrap(s.phase.err));
  }

  /** A bind has failed under an ended context or without an answer; or that is what has been said. */
  ghost predicate Lost(s: State) {
    match s.phase
    case Failed(_) => s.ctx.Some? || s.answer.None?
    case Done(r) => Says(r, IsUnavailable)
    case _ => false
  }

  lemma LostStays(s: State, e: Event)
    requires Invariant(s) && Lost(s) && After(s, e).Some?
    ensures Lost(After(s, e).value)
  {
    hide Is, Fail, AsUnavailable, FirstCode, Abandoned, HasCode, NoAnswer;
    if s.phase.Failed? && e.Decide? {
      hide After, Decided, Invariant;
      if s.ctx.Some? {
        EndedContextIsUnavailable(s);
      } else {
        NoAnswerIsUnavailable(s);
      }
      DecideDecides(s);
    }
  }

  lemma DecideDecides(s: State)
    ensures After(s, Decide) == Decided(s)
    ensures s.phase.Failed? && Decided(s).Some? ==> Decided(s).value.phase.Done?
  {}

  /** Once a bind has failed under an ended context, even on code 49, or without an answer, every way the run can go
      on ends in an outage. */
  lemma {:induction false} LostRun(s: State, before: seq<Event>, after: seq<Event>)
    requires Initial(s) && AfterAll(s, before).Some? && Lost(AfterAll(s, before).value)
    requires AfterAll(s, before + after).Some?
    ensures Lost(AfterAll(s, before + after).value)
  {
    hide After, Invariant, Lost;
    if after == [] {
      assert before + after == before;
    } else {
      var run := before + after;
      assert run[..|run| - 1] == before + after[..|after| - 1];
      LostRun(s, before, after[..|after| - 1]);
      RunKeeps(s, run[..|run| - 1]);
      LostStays(AfterAll(s, run[..|run| - 1]).value, run[|run| - 1]);
    }
  }

  /** The steps of the check itself, its hook included; the others are the world's. */
  predicate Own(e: Event) {
    !e.ServerAnswers? && !e.PeerDrops? && !e.ContextEnds?
  }

  function OwnSteps(events: seq<Event>): nat {
    if events == [] then 0 else OwnSteps(events[..|events| - 1]) + (if Own(events[|events| - 1]) then 1 else 0)
  }

  /** How many steps of its own, at most, a check is from its end. */
  function Left(s: State): nat {
    (if s.hook then 1 else 0) +
    match s.phase
    case Begin => 8
    case CheckContext => 7
    case Dialling => 6
    case Registering => 5
    case StartingTls => 3
    case Binding => 2
    case Failed(_) => 1
    case Done(_) => 0
  }

  /** Each step of its own brings a check nearer its end, and nothing the world does takes it further away. */
  lemma StepsNearTheEnd(s: State, e: Event)
    requires After(s, e).Some?
    ensures Left(After(s, e).value) + (if Own(e) then 1 else 0) <= Left(s)
  {
    hide Foreign, NoAnswer, Decided, Return, Fail, Is, FirstCode;
    if e.Decide? {
      hide After;
      DecideDecides(s);
      DecisionsNearTheEnd(s);
    } else {
      ReturnIsTheEnd(s);
    }
  }

  lemma DecisionsNearTheEnd(s: State)
    requires Decided(s).Some?
    ensures Left(Decided(s).value) < Left(s)
  {
    hide Return, Abandoned, HasCode, Fail;
    ReturnIsTheEnd(s);
    match s.phase {
      case Failed(_) =>
      case Binding =>
      case _ =>
    }
  }

  lemma ReturnIsTheEnd(s: State)
    ensures forall r :: Left(Return(s, r)) == 0
    ensures forall n, r :: Left(Return(s.(dials := n), r)) == 0
  {}

  /** No run holds more than eight steps of its own, whatever happens around it. */
  lemma {:induction false} StepsAreBounded(s: State, events: seq<Event>)
    requires Initial(s) && AfterAll(s, events).Some?
    ensures OwnSteps(events) + Left(AfterAll(s, events).value) <= 8
  {
    if events != [] {
      var init := events[..|events| - 1];
      StepsAreBounded(s, init);
      StepsNearTheEnd(AfterAll(s, init).value, events[|events| - 1]);
    }
  }

  /** Once its context has ended, a check always has a step of its own to take, needing nothing of the server or
      the peer; as it has only so many, a server that never answers cannot hold it. */
  lemma CancelledChecksReturn(s: State)
    requires Invariant(s) && s.ctx.Some? && !s.phase.Done?
    ensures exists e: Event :: Own(e) && After(s, e).Some?
  {
    var e := if s.hook then HookRuns
             else if s.phase.StartingTls? then TlsFails(Transport)
             else if s.phase.Binding? then BindBreaks(Transport)
             else Decide;
    assert Own(e) && After(s, e).Some?;
  }
}
