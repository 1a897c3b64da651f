/**
 Connection admission in the HTTP server: one acceptor task, any number of handler tasks, and a
 counting semaphore, as interleaved steps.  Each step is one call that another task can come between.
 */
module Admission {
  import opened Bytes
  import opened FiniteSets

  /** Every accepted connection counts as a socket of its own. */
  type Socket = nat

  /** Where http_server_thread is, and the socket it has just accepted. */
  datatype Acceptor =
    | Accepting
    | Accepted(sock: Socket)       // before pvPortMalloc
    | Allocated(sock: Socket)      // has a context, waits for a permit
    | Admitted(sock: Socket)       // has a context and a permit, before xTaskCreate
    | NotCreated(sock: Socket)     // xTaskCreate has failed
    | Freed(sock: Socket)          // ... and the context has been freed
    | Rejected(sock: Socket)       // ... and the permit has been given back, or there never was a context
  {
    predicate HasPermit() {
      Admitted? || NotCreated? || Freed?
    }

    predicate HasContext() {
      Allocated? || Admitted? || NotCreated?
    }
  }

  /** Where a do_handle_connection task is; after giving its permit back it owns nothing any more. */
  datatype Handler = Serving | SocketClosed | ContextFreed

  datatype State = State(permits: nat, contexts: nat, acceptor: Acceptor, handlers: map<Socket, Handler>,
                         accepted: set<Socket>, closed: multiset<Socket>)

  datatype Step =
    | AcceptFails
    | Accept(sock: Socket)
    | AllocFails
    | Alloc
    | Take
    | Create
    | CreateFails
    | FreeRejected
    | GiveRejected
    | CloseRejected
    | CloseServed(sock: Socket)
    | FreeServed(sock: Socket)
    | GiveServed(sock: Socket)

  /** The step is possible: the task is there, and taking the semaphore does not block. */
  predicate Enabled(s: State, step: Step) {
    match step
    case AcceptFails => s.acceptor.Accepting?
    case Accept(sock) => s.acceptor.Accepting? && sock !in s.accepted
    case AllocFails | Alloc => s.acceptor.Accepted?
    case Take => s.acceptor.Allocated? && s.permits > 0
    case Create | CreateFails => s.acceptor.Admitted?
    case FreeRejected => s.acceptor.NotCreated? && s.contexts > 0
    case GiveRejected => s.acceptor.Freed?
    case CloseRejected => s.acceptor.Rejected?
    case CloseServed(sock) => sock in s.handlers && s.handlers[sock] == Serving
    case FreeServed(sock) => sock in s.handlers && s.handlers[sock] == SocketClosed && s.contexts > 0
    case GiveServed(sock) => sock in s.handlers && s.handlers[sock] == ContextFreed
  }

  function Apply(s: State, step: Step): State
    requires Enabled(s, step)
  {
    match step
    case AcceptFails => s
    case Accept(sock) => s.(acceptor := Accepted(sock), accepted := s.accepted + {sock})
    case AllocFails => s.(acceptor := Rejected(s.acceptor.sock))
    case Alloc => s.(acceptor := Allocated(s.acceptor.sock), contexts := s.contexts + 1)
    case Take => s.(acceptor := Admitted(s.acceptor.sock), permits := s.permits - 1)
    case Create => s.(acceptor := Accepting, handlers := s.handlers[s.acceptor.sock := Serving])
    case CreateFails => s.(acceptor := NotCreated(s.acceptor.sock))
    case FreeRejected => s.(acceptor := Freed(s.acceptor.sock), contexts := s.contexts - 1)
    case GiveRejected => s.(acceptor := Rejected(s.acceptor.sock), permits := s.permits + 1)
    case CloseRejected => s.(acceptor := Accepting, closed := s.closed + multiset{s.acceptor.sock})
    case CloseServed(sock) => s.(handlers := s.handlers[sock := SocketClosed], closed := s.closed + multiset{sock})
    case FreeServed(sock) => s.(handlers := s.handlers[sock := ContextFreed], contexts := s.contexts - 1)
    case GiveServed(sock) => s.(handlers := s.handlers - {sock}, permits := s.permits + 1)
  }

  function Initial(maxThreadCount: nat): State {
    State(maxThreadCount, 0, Accepting, map[], {}, multiset{})
  }

  /** The states along a run; None if some step is not possible. */
  function Run(s: State, steps: seq<Step>): Option<State> {
    if steps == [] then Some(s)
    else
      match Run(s, steps[..|steps| - 1])
      case None => None
      case Some(t) =>
        var step := steps[|steps| - 1];
        if Enabled(t, step) then Some(Apply(t, step)) else None
  }

  // -------------------------------------------------------------------------------------- invariant

  function One(b: bool): nat {
    if b then 1 else 0
  }

  /** The handlers that still hold their contexts. */
  function WithContext(handlers: map<Socket, Handler>): set<Socket> {
    set h | h in handlers && handlers[h] != ContextFreed
  }

  /** How many owners a socket has: the acceptor, or a handler that has not closed it. */
  function Owners(s: State, sock: Socket): nat {
    One(!s.acceptor.Accepting? && s.acceptor.sock == sock) + One(sock in s.handlers && s.handlers[sock] == Serving)
  }

  /** Permits and contexts are all accounted for. */
  ghost predicate Counted(s: State, max: nat) {
    && s.permits + |s.handlers| + One(s.acceptor.HasPermit()) == max
    && s.contexts == |WithContext(s.handlers)| + One(s.acceptor.HasContext())
  }

  /** So are the sockets. */
  ghost predicate Owned(s: State) {
    && (!s.acceptor.Accepting? ==> s.acceptor.sock !in s.handlers)
    && (forall sock :: sock in s.accepted ==> Owners(s, sock) + s.closed[sock] == 1)
    && (forall sock :: sock !in s.accepted ==> Owners(s, sock) == 0 && s.closed[sock] == 0 && sock !in s.handlers)
  }

  ghost predicate Inv(s: State, max: nat) {
    Counted(s, max) && Owned(s)
  }

  lemma CountAfterUpdate(handlers: map<Socket, Handler>, sock: Socket, h: Handler)
    ensures |handlers[sock := h]| == |handlers| + One(sock !in handlers)
    ensures |WithContext(handlers[sock := h])|
         == |WithContext(handlers)| - One(sock in WithContext(handlers)) + One(h != ContextFreed)
  {
    assert handlers[sock := h].Keys == handlers.Keys + {sock};
    WithContextAfterUpdate(handlers, sock, h);
    CountOneMore(handlers.Keys, sock);
    CountOneMore(WithContext(handlers), sock);
    CountOneLess(WithContext(handlers), sock);
  }

  lemma CountOneMore(a: set<Socket>, x: Socket)
    ensures |a + {x}| == |a| + One(x !in a)
  {
    if x in a {
      assert a + {x} == a;
    }
  }

  lemma CountOneLess(a: set<Socket>, x: Socket)
    ensures |a - {x}| == |a| - One(x in a)
  {
    if x !in a {
      assert a - {x} == a;
    }
  }

  lemma WithContextAfterUpdate(handlers: map<Socket, Handler>, sock: Socket, h: Handler)
    ensures WithContext(handlers[sock := h])
         == if h == ContextFreed then WithContext(handlers) - {sock} else WithContext(handlers) + {sock}
  {
  }

  lemma CountAfterRemoval(handlers: map<Socket, Handler>, sock: Socket)
    requires sock in handlers && handlers[sock] == ContextFreed
    ensures |handlers - {sock}| == |handlers| - 1
    ensures WithContext(handlers - {sock}) == WithContext(handlers)
  {
    assert (handlers - {sock}).Keys == handlers.Keys - {sock};
  }

  lemma StepKeepsCounts(s: State, step: Step, max: nat)
    requires Inv(s, max) && Enabled(s, step)
    ensures Counted(Apply(s, step), max)
  {
    match step {
      case Create => CountAfterUpdate(s.handlers, s.acceptor.sock, Serving);
      case CloseServed(sock) => CountAfterUpdate(s.handlers, sock, SocketClosed);
      case FreeServed(sock) => CountAfterUpdate(s.handlers, sock, ContextFreed);
      case GiveServed(sock) => CountAfterRemoval(s.handlers, sock);
      case _ =>
    }
  }

  lemma StepKeepsOwners(s: State, step: Step)
    requires Owned(s) && Enabled(s, step)
    ensures Owned(Apply(s, step))
  {
  }

  lemma StepKeepsInv(s: State, step: Step, max: nat)
    requires Inv(s, max) && Enabled(s, step)
    ensures Inv(Apply(s, step), max)
  {
    StepKeepsCounts(s, step, max);
    StepKeepsOwners(s, step);
  }

  lemma {:induction false} RunKeepsInv(max: nat, steps: seq<Step>)
    requires Run(Initial(max), steps).Some?
    ensures Inv(Run(Initial(max), steps).value, max)
  {
    if steps != [] {
      var before := steps[..|steps| - 1];
      RunKeepsInv(max, before);
      StepKeepsInv(Run(Initial(max), before).value, steps[|steps| - 1], max);
    }
  }

  /**
   Admission over all interleavings.  In every state the server can get to: permits are conserved,
   there is at most one context more than there are permits, and every socket that was accepted
   either has exactly one owner and is open, or has none and was closed exactly once.
   */
  lemma AdmissionIsSafe(max: nat, steps: seq<Step>)
    requires Run(Initial(max), steps).Some?
    ensures var s := Run(Initial(max), steps).value;
            && s.permits + |s.handlers| + One(s.acceptor.HasPermit()) == max
            && s.contexts <= max + 1
            && (forall sock :: sock in s.accepted ==> Owners(s, sock) + s.closed[sock] == 1)
            && (forall sock :: sock in s.closed ==> sock in s.accepted)
  {
    RunKeepsInv(max, steps);
    var s := Run(Initial(max), steps).value;
    SubsetSize(WithContext(s.handlers), s.handlers.Keys);
  }

  /** A task that frees a context has one to free, and no permit is given back that was not taken. */
  lemma NothingIsGivenTwice(max: nat, steps: seq<Step>, sock: Socket)
    requires Run(Initial(max), steps).Some?
    ensures var s := Run(Initial(max), steps).value;
            && (s.acceptor.NotCreated? ==> Enabled(s, FreeRejected))
            && (sock in s.handlers && s.handlers[sock] == SocketClosed ==> Enabled(s, FreeServed(sock)))
            && s.permits <= max
  {
    RunKeepsInv(max, steps);
    var s := Run(Initial(max), steps).value;
    if sock in s.handlers && s.handlers[sock] == SocketClosed {
      assert sock in WithContext(s.handlers);
    }
  }

  /** The step that a handler takes next. */
  function NextOf(sock: Socket, h: Handler): Step {
    match h
    case Serving => CloseServed(sock)
    case SocketClosed => FreeServed(sock)
    case ContextFreed => GiveServed(sock)
  }

  /**
   No deadlock: the acceptor waits for a permit only while all of them are with handlers, each of
   which can go on.
   */
  lemma WaitsOnlyForHandlers(max: nat, steps: seq<Step>)
    requires Run(Initial(max), steps).Some?
    ensures var s := Run(Initial(max), steps).value;
            s.acceptor.Allocated? && !Enabled(s, Take) ==>
              |s.handlers| == max && forall h :: h in s.handlers ==> Enabled(s, NextOf(h, s.handlers[h]))
  {
    var s := Run(Initial(max), steps).value;
    RunKeepsInv(max, steps);
    forall h | h in s.handlers
      ensures Enabled(s, NextOf(h, s.handlers[h]))
    {
      NothingIsGivenTwice(max, steps, h);
    }
  }

  /** No leak: once all handlers are done and the acceptor is back at accept, all is as at first. */
  lemma IdleServerHoldsNothing(max: nat, steps: seq<Step>)
    requires Run(Initial(max), steps).Some?
    requires var s := Run(Initial(max), steps).value; s.acceptor.Accepting? && s.handlers == map[]
    ensures var s := Run(Initial(max), steps).value;
            s.permits == max && s.contexts == 0 && forall sock :: sock in s.accepted ==> s.closed[sock] == 1
  {
    RunKeepsInv(max, steps);
    assert WithContext(map[]) == {};
  }

  // --------------------------------------------------------------------------------------- progress

  lemma OneStepMore(max: nat, steps: seq<Step>, step: Step)
    requires Run(Initial(max), steps).Some? && Enabled(Run(Initial(max), steps).value, step)
    ensures Run(Initial(max), steps + [step]) == Some(Apply(Run(Initial(max), steps).value, step))
  {
    assert (steps + [step])[..|steps|] == steps;
  }

  /** The run `all` goes on where `steps` ends. */
  ghost predicate GoesOn(steps: seq<Step>, all: seq<Step>) {
    |steps| <= |all| && all[..|steps|] == steps
  }

  lemma GoesOnStill(a: seq<Step>, b: seq<Step>, c: seq<Step>)
    requires GoesOn(a, b) && GoesOn(b, c)
    ensures GoesOn(a, c)
  {
    assert c[..|b|][..|a|] == c[..|a|];
  }

  function StepsLeft(h: Handler): nat {
    match h case Serving => 3 case SocketClosed => 2 case ContextFreed => 1
  }

  /** A handler can always go on to its end, whatever the others do. */
  lemma {:induction false} FinishHandler(max: nat, steps: seq<Step>, sock: Socket) returns (all: seq<Step>)
    requires Run(Initial(max), steps).Some? && sock in Run(Initial(max), steps).value.handlers
    ensures GoesOn(steps, all) && Run(Initial(max), all).Some?
    ensures var (s, t) := (Run(Initial(max), steps).value, Run(Initial(max), all).value);
            t.handlers == s.handlers - {sock} && t.acceptor == s.acceptor && t.accepted == s.accepted
    decreases StepsLeft(Run(Initial(max), steps).value.handlers[sock])
  {
    var s := Run(Initial(max), steps).value;
    var step := NextOf(sock, s.handlers[sock]);
    NothingIsGivenTwice(max, steps, sock);
    OneStepMore(max, steps, step);
    all := steps + [step];
    if !step.GiveServed? {
      all := FinishHandler(max, all, sock);
      GoesOnStill(steps, steps + [step], all);
    }
  }

  lemma {:induction false} FinishHandlers(max: nat, steps: seq<Step>) returns (all: seq<Step>)
    requires Run(Initial(max), steps).Some?
    ensures GoesOn(steps, all) && Run(Initial(max), all).Some?
    ensures var (s, t) := (Run(Initial(max), steps).value, Run(Initial(max), all).value);
            t.handlers == map[] && t.acceptor == s.acceptor && t.accepted == s.accepted
    decreases |Run(Initial(max), steps).value.handlers|
  {
    var s := Run(Initial(max), steps).value;
    all := steps;
    if s.handlers != map[] {
      var sock :| sock in s.handlers;
      var next := FinishHandler(max, steps, sock);
      assert (s.handlers - {sock}).Keys == s.handlers.Keys - {sock};
      all := FinishHandlers(max, next);
      GoesOnStill(steps, next, all);
    }
  }

  /**
   An accepted connection can always get to a handler: if there are permits at all, then from every
   state the server can get to, it can go on to serve the socket that it has just accepted.
   */
  lemma AcceptedCanBeServed(max: nat, steps: seq<Step>) returns (all: seq<Step>)
    requires max > 0 && Run(Initial(max), steps).Some? && Run(Initial(max), steps).value.acceptor.Accepted?
    ensures GoesOn(steps, all) && Run(Initial(max), all).Some?
    ensures var (sock, t) := (Run(Initial(max), steps).value.acceptor.sock, Run(Initial(max), all).value);
            t.acceptor == Accepting && sock in t.handlers && t.handlers[sock] == Serving && Owners(t, sock) == 1
  {
    var done := FinishHandlers(max, steps);
    RunKeepsInv(max, done);
    OneStepMore(max, done, Alloc);
    OneStepMore(max, done + [Alloc], Take);
    OneStepMore(max, done + [Alloc] + [Take], Create);
    all := done + [Alloc] + [Take] + [Create];
    assert GoesOn(done, all);
    GoesOnStill(steps, done, all);
  }

  /** If a task cannot be created, the connection is closed and everything taken for it is given back. */
  lemma RejectedIsUndone(max: nat, steps: seq<Step>)
    requires Run(Initial(max), steps).Some? && Run(Initial(max), steps).value.acceptor.Admitted?
    ensures var s := Run(Initial(max), steps).value;
            var all := steps + [CreateFails] + [FreeRejected] + [GiveRejected] + [CloseRejected];
            && Run(Initial(max), all).Some?
            && var t := Run(Initial(max), all).value;
               && t.acceptor == Accepting && t.handlers == s.handlers
               && t.permits == s.permits + 1 && t.contexts == s.contexts - 1 && t.closed == s.closed + multiset{s.acceptor.sock}
  {
    RunKeepsInv(max, steps);
    OneStepMore(max, steps, CreateFails);
    var a := steps + [CreateFails];
    OneStepMore(max, a, FreeRejected);
    OneStepMore(max, a + [FreeRejected], GiveRejected);
    OneStepMore(max, a + [FreeRejected] + [GiveRejected], CloseRejected);
  }
}
