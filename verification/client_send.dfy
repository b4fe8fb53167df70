/** Requests and `stop` on one client, as a protocol: two locks, one socket and a count of
    requests in flight. Every lock operation and every critical section is a step. */
module ClientSend {
  import opened Wrappers

  type Thread = nat

  /** Where one activation of `send` stands. */
  datatype Pc =
    | Entering        // holds the request lock, wants the socket lock to mark the request
    | EntryLocked
    | Flying          // the request is in flight: sending, receiving, perhaps following a redirect
    | CloseLocked     // the response asked for the connection to be closed
    | Landing         // done, wants the socket lock to unmark the request
    | LandLocked
    | Left            // `send_` has returned

  datatype Frame = Frame(pc: Pc, ret: bool, retried: bool)

  /** `frames` are the nested activations of `send` on the thread that holds the request lock, the
      outermost first. `stopping` says that the holder of the socket lock is in `stop`.
      The last two fields record whether `stop` came while a request was in flight, and whether
      another request was entered since. */
  datatype Client = Client(
    keepAlive: bool, owner: Option<Thread>, frames: seq<Frame>, socketLock: Option<Thread>, stopping: bool,
    inFlight: int, fromThread: Option<Thread>, closeWhenDone: bool, open: bool,
    stopped: bool, enteredSince: bool)

  datatype Step =
    | Lock(t: Thread)                                     // `send`, outermost or from a redirect
    | LockSocketToEnter(t: Thread)
    | Enter(t: Thread, alive: bool, connected: bool)      // the first critical section of `send_`
    | LockSocketToClose(t: Thread)
    | CloseOnDemand(t: Thread)                            // the critical section of `handle_request`
    | Land(t: Thread, ret: bool)
    | LockSocketToLand(t: Thread)
    | Exit(t: Thread)                                     // the critical section at the end of `send_`
    | Retry(t: Thread)
    | Unlock(t: Thread)
    | LockSocketToStop(t: Thread)
    | Stop(t: Thread)                                     // the critical section of `stop`

  function Start(keepAlive: bool): Client
  {
    Client(keepAlive, None, [], None, false, 0, None, false, false, false, false)
  }

  predicate TopIs(s: Client, t: Thread, pc: Pc)
  {
    s.owner == Some(t) && s.frames != [] && s.frames[|s.frames| - 1].pc == pc
  }

  predicate Enabled(s: Client, step: Step)
  {
    match step
    case Lock(t) => s.owner == None || TopIs(s, t, Flying)
    case LockSocketToEnter(t) => TopIs(s, t, Entering) && s.socketLock == None
    case Enter(t, _, _) => TopIs(s, t, EntryLocked)
    case LockSocketToClose(t) => TopIs(s, t, Flying) && s.socketLock == None
    case CloseOnDemand(t) => TopIs(s, t, CloseLocked)
    case Land(t, _) => TopIs(s, t, Flying)
    case LockSocketToLand(t) => TopIs(s, t, Landing) && s.socketLock == None
    case Exit(t) => TopIs(s, t, LandLocked)
    case Retry(t) => TopIs(s, t, Left) && !s.frames[|s.frames| - 1].ret && !s.frames[|s.frames| - 1].retried
    case Unlock(t) => TopIs(s, t, Left)
    case LockSocketToStop(t) => s.socketLock == None
    case Stop(t) => s.socketLock == Some(t) && s.stopping
  }

  function WithTop(s: Client, pc: Pc): (s': Client)
    requires s.frames != []
    ensures s'.keepAlive == s.keepAlive
  {
    var n := |s.frames| - 1;
    s.(frames := s.frames[n := s.frames[n].(pc := pc)])
  }

  function WithRet(s: Client, ret: bool): (s': Client)
    requires s.frames != []
    ensures s'.keepAlive == s.keepAlive
  {
    var n := |s.frames| - 1;
    s.(frames := s.frames[n := s.frames[n].(ret := ret)])
  }

  /** What `send_` does before it releases the socket lock for the first time. */
  function Entered(s: Client, t: Thread, alive: bool, connected: bool): Client
    requires s.frames != []
  {
    var s1 := s.(closeWhenDone := false, socketLock := None);
    if (s.open && alive) || connected then
      WithTop(s1, Flying).(open := true, inFlight := s.inFlight + 1, fromThread := Some(t),
                           stopped := s.stopped && s.inFlight > 0, enteredSince := true)
    else WithTop(WithRet(s1, false), Left).(open := false, enteredSince := true)
  }

  /** What the scope guard at the end of `send_` does. */
  function Exited(s: Client): Client
    requires s.frames != []
  {
    var left := s.inFlight - 1;
    var ret := s.frames[|s.frames| - 1].ret;
    var close := s.closeWhenDone || !s.keepAlive || !ret;
    WithTop(s, Left).(inFlight := left, fromThread := if left <= 0 then None else s.fromThread,
                      open := s.open && !close, socketLock := None)
  }

  function Stopped(s: Client): Client
  {
    var s1 := s.(socketLock := None, stopping := false);
    if s.inFlight > 0 then s1.(closeWhenDone := true, stopped := true, enteredSince := false)
    else s1.(open := false)
  }

  function Do(s: Client, step: Step): (s': Client)
    requires Enabled(s, step)
    ensures s'.keepAlive == s.keepAlive
  {
    match step
    case Lock(t) => s.(owner := Some(t), frames := s.frames + [Frame(Entering, false, false)])
    case LockSocketToEnter(t) => WithTop(s, EntryLocked).(socketLock := Some(t))
    case Enter(t, alive, connected) => Entered(s, t, alive, connected)
    case LockSocketToClose(t) => WithTop(s, CloseLocked).(socketLock := Some(t))
    case CloseOnDemand(t) => WithTop(s, Flying).(open := false, socketLock := None)
    case Land(t, ret) => WithTop(WithRet(s, ret), Landing)
    case LockSocketToLand(t) => WithTop(s, LandLocked).(socketLock := Some(t))
    case Exit(t) => Exited(s)
    case Retry(t) =>
      var n := |s.frames| - 1;
      s.(frames := s.frames[n := Frame(Entering, false, true)])
    case Unlock(t) =>
      var n := |s.frames| - 1;
      s.(frames := s.frames[..n], owner := if n == 0 then None else s.owner)
    case LockSocketToStop(t) => s.(socketLock := Some(t), stopping := true)
    case Stop(t) => Stopped(s)
  }

  // ----- the assertions in the original

  /** `shutdown_ssl` and `close_socket`: no request of another thread is in flight. */
  predicate MayClose(s: Client, t: Thread)
  {
    s.inFlight == 0 || s.fromThread == Some(t)
  }

  /** All assertions that the step runs into, in the state in which it does. */
  predicate AssertsHold(s: Client, step: Step)
    requires Enabled(s, step)
  {
    match step
    case Enter(t, alive, connected) =>
      && (s.open && !alive ==> MayClose(s, t))
      && (s.inFlight > 1 ==> s.fromThread == Some(t))
    case CloseOnDemand(t) => MayClose(s, t)
    case Exit(t) =>
      && (s.inFlight - 1 <= 0 ==> s.inFlight - 1 == 0)
      && (!Exited(s).open ==> MayClose(s.(inFlight := s.inFlight - 1), t))
    case Stop(t) => s.inFlight <= 0 ==> MayClose(s, t)
    case _ => true
  }

  // ----- the invariant

  predicate InFlightPc(pc: Pc)
  {
    pc == Flying || pc == CloseLocked || pc == Landing || pc == LandLocked
  }

  predicate LockedPc(pc: Pc)
  {
    pc == EntryLocked || pc == CloseLocked || pc == LandLocked
  }

  /** How many activations on the request lock's holder are in flight: every one that has a
      nested one, and the innermost if it has been marked. */
  function Nesting(frames: seq<Frame>): int
  {
    if frames == [] then 0
    else |frames| - 1 + if InFlightPc(frames[|frames| - 1].pc) then 1 else 0
  }

  predicate Inv(s: Client)
  {
    && (s.owner == None <==> s.frames == [])
    && (forall i :: 0 <= i < |s.frames| - 1 ==> s.frames[i].pc == Flying)
    && s.inFlight == Nesting(s.frames)
    && s.fromThread == (if s.inFlight > 0 then s.owner else None)
    // the socket lock is held by the innermost activation, or by a stop, or by nobody
    && ((s.frames != [] && LockedPc(s.frames[|s.frames| - 1].pc)) <==> (s.socketLock != None && !s.stopping))
    && (s.socketLock != None && !s.stopping ==> s.socketLock == s.owner)
    && (s.stopping ==> s.socketLock != None)
    // without keep-alive an idle client has no socket
    && (!s.keepAlive && s.inFlight == 0 ==> !s.open)
    // a stop is remembered until the next request is entered
    && (s.stopped && !s.enteredSince ==> if s.inFlight > 0 then s.closeWhenDone else !s.open)
  }

  lemma {:induction false} StartInv(keepAlive: bool)
    ensures Inv(Start(keepAlive))
  {
  }

  lemma {:induction false} LockInv(s: Client, step: Step)
    requires Inv(s) && Enabled(s, step) && (step.Lock? || step.Unlock? || step.Retry? || step.Land?)
    ensures Inv(Do(s, step))
  {
  }

  lemma {:induction false} SocketLockInv(s: Client, step: Step)
    requires Inv(s) && Enabled(s, step)
    requires step.LockSocketToEnter? || step.LockSocketToClose? || step.LockSocketToLand? || step.LockSocketToStop?
    ensures Inv(Do(s, step))
  {
  }

  lemma {:induction false} EnterInv(s: Client, t: Thread, alive: bool, connected: bool)
    requires Inv(s) && Enabled(s, Enter(t, alive, connected))
    ensures AssertsHold(s, Enter(t, alive, connected)) && Inv(Entered(s, t, alive, connected))
  {
    var n := |s.frames| - 1;
    var s' := Entered(s, t, alive, connected);
    assert |s'.frames| == n + 1 && forall i :: 0 <= i < n ==> s'.frames[i] == s.frames[i];
    assert s.inFlight == n;
  }

  lemma {:induction false} ExitInv(s: Client, t: Thread)
    requires Inv(s) && Enabled(s, Exit(t))
    ensures AssertsHold(s, Exit(t)) && Inv(Exited(s))
  {
  }

  lemma {:induction false} CloseInv(s: Client, t: Thread)
    requires Inv(s) && Enabled(s, CloseOnDemand(t))
    ensures AssertsHold(s, CloseOnDemand(t)) && Inv(Do(s, CloseOnDemand(t)))
  {
  }

  lemma {:induction false} StopInv(s: Client, t: Thread)
    requires Inv(s) && Enabled(s, Stop(t))
    ensures AssertsHold(s, Stop(t)) && Inv(Stopped(s))
  {
  }

  /** Every step keeps the invariant, and its assertions hold. */
  lemma {:induction false} StepInv(s: Client, step: Step)
    requires Inv(s) && Enabled(s, step)
    ensures AssertsHold(s, step) && Inv(Do(s, step))
  {
    match step
    case Enter(t, alive, connected) => EnterInv(s, t, alive, connected);
    case Exit(t) => ExitInv(s, t);
    case CloseOnDemand(t) => CloseInv(s, t);
    case Stop(t) => StopInv(s, t);
    case Lock(_) => LockInv(s, step);
    case Unlock(_) => LockInv(s, step);
    case Retry(_) => LockInv(s, step);
    case Land(_, _) => LockInv(s, step);
    case _ => SocketLockInv(s, step);
  }

  // ----- runs

  predicate IsRun(s: Client, steps: seq<Step>)
    decreases |steps|
  {
    steps != [] ==> Enabled(s, steps[0]) && IsRun(Do(s, steps[0]), steps[1..])
  }

  function After(s: Client, steps: seq<Step>): Client
    requires IsRun(s, steps)
    decreases |steps|
  {
    if steps == [] then s else After(Do(s, steps[0]), steps[1..])
  }

  /** No assertion fails in a run. */
  predicate AssertsHoldAlong(s: Client, steps: seq<Step>)
    requires IsRun(s, steps)
    decreases |steps|
  {
    steps != [] ==> AssertsHold(s, steps[0]) && AssertsHoldAlong(Do(s, steps[0]), steps[1..])
  }

  lemma {:induction false} RunInv(s: Client, steps: seq<Step>)
    requires Inv(s) && IsRun(s, steps)
    ensures Inv(After(s, steps)) && AssertsHoldAlong(s, steps) && After(s, steps).keepAlive == s.keepAlive
    decreases |steps|
  {
    if steps != [] {
      StepInv(s, steps[0]);
      RunInv(Do(s, steps[0]), steps[1..]);
    }
  }

  /** Main result, for every interleaving of requests, nested requests and stops: no assertion
      fails; the count of requests in flight is the nesting on the thread that holds the request
      lock, which is the thread on record; and without keep-alive an idle client has no open
      socket. */
  lemma {:induction false} RequestsAreOwned(keepAlive: bool, steps: seq<Step>)
    requires IsRun(Start(keepAlive), steps)
    ensures AssertsHoldAlong(Start(keepAlive), steps)
    ensures var s := After(Start(keepAlive), steps);
            && s.inFlight == Nesting(s.frames) >= 0
            && s.fromThread == (if s.inFlight > 0 then s.owner else None)
            && (!keepAlive && s.inFlight == 0 ==> !s.open)
  {
    StartInv(keepAlive);
    RunInv(Start(keepAlive), steps);
  }

  function Actor(step: Step): Thread { step.t }

  /** No deadlock: whoever holds the socket lock can go on, and when nobody does, whoever holds the
      request lock can. So the socket lock is never held while waiting for the other one. */
  lemma {:induction false} HolderCanGoOn(keepAlive: bool, steps: seq<Step>) returns (step: Step)
    requires IsRun(Start(keepAlive), steps)
    requires var s := After(Start(keepAlive), steps); s.owner != None || s.socketLock != None
    ensures var s := After(Start(keepAlive), steps);
            && Enabled(s, step)
            && Some(Actor(step)) == if s.socketLock != None then s.socketLock else s.owner
  {
    StartInv(keepAlive);
    RunInv(Start(keepAlive), steps);
    var s := After(Start(keepAlive), steps);
    if s.stopping {
      step := Stop(s.socketLock.value);
    } else {
      var t := s.owner.value;
      match s.frames[|s.frames| - 1].pc
      case Entering => step := LockSocketToEnter(t);
      case EntryLocked => step := Enter(t, true, true);
      case Flying => step := Land(t, true);
      case CloseLocked => step := CloseOnDemand(t);
      case Landing => step := LockSocketToLand(t);
      case LandLocked => step := Exit(t);
      case Left => step := Unlock(t);
    }
  }

  // ----- what a stop achieves

  /** A stop that comes while a request is in flight leaves the socket closed once no request is
      in flight any more, provided no further request was entered in between. */
  lemma {:induction false} StopClosesSocket(keepAlive: bool, steps: seq<Step>)
    requires IsRun(Start(keepAlive), steps)
    ensures var s := After(Start(keepAlive), steps);
            s.stopped && !s.enteredSince && s.inFlight == 0 ==> !s.open
  {
    StartInv(keepAlive);
    RunInv(Start(keepAlive), steps);
  }

  /** A request is entered, over a new connection. */
  function EnterSteps(t: Thread): seq<Step>
  {
    [Lock(t), LockSocketToEnter(t), Enter(t, false, true)]
  }

  /** The innermost request ends well. */
  function LandSteps(t: Thread): seq<Step>
  {
    [Land(t, true), LockSocketToLand(t), Exit(t)]
  }

  /** A redirect is followed: a nested request that succeeds, and then the end of the outer one. */
  function Redirected(t: Thread): seq<Step>
  {
    EnterSteps(t) + LandSteps(t) + [Unlock(t)] + LandSteps(t)
  }

  /** The proviso is needed: whenever the only request in flight has been stopped and connections
      are kept alive, following a redirect enters another request, which forgets the stop, and the
      client ends idle with an open socket. */
  lemma {:induction false} StopIsForgotten(s: Client, t: Thread)
    requires Inv(s) && s.keepAlive && s.socketLock == None && |s.frames| == 1 && TopIs(s, t, Flying)
    requires s.stopped && !s.enteredSince
    ensures IsRun(s, Redirected(t))
    ensures var s' := After(s, Redirected(t)); s'.inFlight == 0 && s'.stopped && s'.open
  {
    EnterRun(s, t);
    var s1 := After(s, EnterSteps(t));
    LandRun(s1, t);
    RunJoin(s, EnterSteps(t), LandSteps(t));
    var s2 := After(s1, LandSteps(t));
    RunCons(s2, Unlock(t), []);
    RunJoin(s, EnterSteps(t) + LandSteps(t), [Unlock(t)]);
    var s3 := Do(s2, Unlock(t));
    LandRun(s3, t);
    RunJoin(s, EnterSteps(t) + LandSteps(t) + [Unlock(t)], LandSteps(t));
  }

  /** A request is entered, and thread `u` stops the client while it is in flight. */
  function StoppedInFlight(t: Thread, u: Thread): seq<Step>
  {
    EnterSteps(t) + [LockSocketToStop(u), Stop(u)]
  }

  /** Such a stop can happen: every client that keeps connections alive can run from its start, through
      a stopped request and a redirect, into a state that is idle with an open socket. */
  lemma {:induction false} StopIsForgottenFromStart(t: Thread, u: Thread)
    ensures var steps := StoppedInFlight(t, u) + Redirected(t);
            IsRun(Start(true), steps) &&
            var s := After(Start(true), steps); s.inFlight == 0 && s.stopped && s.open
  {
    var s0 := Start(true);
    var s1 := Do(s0, Lock(t));
    var s2 := Do(s1, LockSocketToEnter(t));
    var s3 := Do(s2, Enter(t, false, true));
    var s4 := Do(s3, LockSocketToStop(u));
    var s5 := Do(s4, Stop(u));
    RunCons(s2, Enter(t, false, true), []);
    RunCons(s1, LockSocketToEnter(t), [Enter(t, false, true)]);
    RunCons(s0, Lock(t), [LockSocketToEnter(t), Enter(t, false, true)]);
    RunCons(s4, Stop(u), []);
    RunCons(s3, LockSocketToStop(u), [Stop(u)]);
    RunJoin(s0, EnterSteps(t), [LockSocketToStop(u), Stop(u)]);
    StartInv(true);
    RunInv(s0, StoppedInFlight(t, u));
    StopIsForgotten(s5, t);
    RunJoin(s0, StoppedInFlight(t, u), Redirected(t));
  }

  lemma {:induction false} RunCons(s: Client, step: Step, rest: seq<Step>)
    requires Enabled(s, step) && IsRun(Do(s, step), rest)
    ensures IsRun(s, [step] + rest) && After(s, [step] + rest) == After(Do(s, step), rest)
  {
    assert ([step] + rest)[1..] == rest;
  }

  lemma {:induction false} SplitFirst<T>(a: seq<T>, b: seq<T>)
    requires a != []
    ensures a + b == [a[0]] + (a[1..] + b)
  {
  }

  lemma {:induction false} RunJoin(s: Client, a: seq<Step>, b: seq<Step>)
    requires IsRun(s, a) && IsRun(After(s, a), b)
    ensures IsRun(s, a + b) && After(s, a + b) == After(After(s, a), b)
    decreases |a|
  {
    if a == [] {
      assert a + b == b;
    } else {
      RunJoin(Do(s, a[0]), a[1..], b);
      RunCons(s, a[0], a[1..] + b);
      SplitFirst(a, b);
    }
  }

  lemma {:induction false} EnterRun(s: Client, t: Thread)
    requires Inv(s) && s.socketLock == None && TopIs(s, t, Flying)
    ensures IsRun(s, EnterSteps(t))
    ensures var s' := After(s, EnterSteps(t));
            && s'.frames == s.frames + [Frame(Flying, false, false)] && s'.owner == s.owner && s'.socketLock == None
            && s'.inFlight == s.inFlight + 1 && s'.open && !s'.closeWhenDone
            && s'.stopped == s.stopped && s'.keepAlive == s.keepAlive
  {
    var s1 := Do(s, Lock(t));
    var s2 := Do(s1, LockSocketToEnter(t));
    RunCons(s2, Enter(t, false, true), []);
    RunCons(s1, LockSocketToEnter(t), [Enter(t, false, true)]);
    RunCons(s, Lock(t), [LockSocketToEnter(t), Enter(t, false, true)]);
  }

  lemma {:induction false} LandRun(s: Client, t: Thread)
    requires TopIs(s, t, Flying) && s.socketLock == None && s.open && !s.closeWhenDone && s.keepAlive
    ensures IsRun(s, LandSteps(t))
    ensures var s' := After(s, LandSteps(t));
            && s'.frames == s.frames[|s.frames| - 1 := s.frames[|s.frames| - 1].(pc := Left, ret := true)]
            && s'.owner == s.owner && s'.socketLock == None && s'.inFlight == s.inFlight - 1
            && s'.open && !s'.closeWhenDone && s'.stopped == s.stopped && s'.keepAlive
  {
    LandingOutcome(s, t, true);
  }

  // ----- how a request ends

  /** After the innermost request has landed with an answer, and no other step in between, the socket
      stays open just when the request succeeded, connections are kept alive, and nobody asked for
      it to be closed. */
  lemma {:induction false} LandingOutcome(s: Client, t: Thread, ret: bool)
    requires TopIs(s, t, Flying) && s.socketLock == None
    ensures IsRun(s, [Land(t, ret), LockSocketToLand(t), Exit(t)])
    ensures var s' := After(s, [Land(t, ret), LockSocketToLand(t), Exit(t)]);
            && (s'.open <==> s.open && ret && s.keepAlive && !s.closeWhenDone)
            && s'.inFlight == s.inFlight - 1 && s'.socketLock == None && s'.owner == s.owner
            && s'.frames == s.frames[|s.frames| - 1 := s.frames[|s.frames| - 1].(pc := Left, ret := ret)]
            && s'.closeWhenDone == s.closeWhenDone && s'.stopped == s.stopped && s'.keepAlive == s.keepAlive
            && s'.fromThread == if s'.inFlight <= 0 then None else s.fromThread
  {
    var n := |s.frames| - 1;
    var s1 := Do(s, Land(t, ret));
    assert s1 == s.(frames := s.frames[n := s.frames[n].(pc := Landing, ret := ret)]);
    LandedFrom(s1, t, n, s.frames[n].(pc := Landing, ret := ret));
    ThreeSteps(s, Land(t, ret), LockSocketToLand(t), Exit(t));
  }

  lemma {:induction false} LandedFrom(s: Client, t: Thread, n: nat, top: Frame)
    requires TopIs(s, t, Landing) && s.socketLock == None && n == |s.frames| - 1 && top == s.frames[n]
    ensures Enabled(s, LockSocketToLand(t)) && Enabled(Do(s, LockSocketToLand(t)), Exit(t))
    ensures var s' := Do(Do(s, LockSocketToLand(t)), Exit(t));
            && (s'.open <==> s.open && top.ret && s.keepAlive && !s.closeWhenDone)
            && s'.inFlight == s.inFlight - 1 && s'.socketLock == None && s'.owner == s.owner
            && s'.frames == s.frames[n := top.(pc := Left)]
            && s'.closeWhenDone == s.closeWhenDone && s'.stopped == s.stopped && s'.keepAlive == s.keepAlive
            && s'.fromThread == if s'.inFlight <= 0 then None else s.fromThread
  {
    var s1 := Do(s, LockSocketToLand(t));
    assert s1.frames[n] == top.(pc := LandLocked);
  }

  lemma {:induction false} ThreeSteps(s: Client, a: Step, b: Step, c: Step)
    requires Enabled(s, a) && Enabled(Do(s, a), b) && Enabled(Do(Do(s, a), b), c)
    ensures IsRun(s, [a, b, c]) && After(s, [a, b, c]) == Do(Do(Do(s, a), b), c)
  {
    var s1 := Do(s, a);
    var s2 := Do(s1, b);
    RunCons(s2, c, []);
    RunCons(s1, b, [c]);
    RunCons(s, a, [b] + [c]);
    assert [a] + ([b] + [c]) == [a, b, c];
  }

  lemma {:induction false} EnteredFrom(s: Client, t: Thread, alive: bool, connected: bool, outer: seq<Frame>)
    requires s.frames == outer + [Frame(EntryLocked, false, false)]
    ensures var s', goes := Entered(s, t, alive, connected), (s.open && alive) || connected;
            && s'.owner == s.owner && s'.socketLock == None && !s'.closeWhenDone && s'.open == goes
            && s'.inFlight == (if goes then s.inFlight + 1 else s.inFlight)
            && s'.fromThread == (if goes then Some(t) else s.fromThread)
            && s'.frames == outer + [Frame(if goes then Flying else Left, false, false)]
  {
    assert s.frames[|outer|] == Frame(EntryLocked, false, false);
  }

  /** A request that finds its socket alive, or can connect, is in flight with an open socket and
      has forgotten earlier stops; one that cannot connect has failed, with the socket closed. */
  lemma {:induction false} EnteringOutcome(s: Client, t: Thread, alive: bool, connected: bool)
    requires s.socketLock == None && (s.owner == None || TopIs(s, t, Flying))
    ensures IsRun(s, [Lock(t), LockSocketToEnter(t), Enter(t, alive, connected)])
    ensures var s' := After(s, [Lock(t), LockSocketToEnter(t), Enter(t, alive, connected)]);
            var goes := (s.open && alive) || connected;
            && s'.owner == Some(t) && s'.socketLock == None && !s'.closeWhenDone && s'.open == goes
            && s'.inFlight == (if goes then s.inFlight + 1 else s.inFlight)
            && s'.fromThread == (if goes then Some(t) else s.fromThread)
            && s'.frames == s.frames + [Frame(if goes then Flying else Left, false, false)]
  {
    var s1 := Do(s, Lock(t));
    LockedToEnter(s1, t, s.frames);
    var s2 := Do(s1, LockSocketToEnter(t));
    ThreeSteps(s, Lock(t), LockSocketToEnter(t), Enter(t, alive, connected));
    EnteredFrom(s2, t, alive, connected, s.frames);
  }

  lemma {:induction false} LockedToEnter(s: Client, t: Thread, outer: seq<Frame>)
    requires s.frames == outer + [Frame(Entering, false, false)] && s.owner == Some(t) && s.socketLock == None
    ensures Enabled(s, LockSocketToEnter(t))
    ensures var s' := Do(s, LockSocketToEnter(t));
            && s'.frames == outer + [Frame(EntryLocked, false, false)] && TopIs(s', t, EntryLocked)
            && s'.owner == s.owner && s'.open == s.open && s'.inFlight == s.inFlight && s'.fromThread == s.fromThread
  {
  }

  /** A stop closes the socket at once when no request is in flight, and otherwise leaves it to the
      end of the request. */
  lemma {:induction false} StoppingOutcome(s: Client, u: Thread)
    requires s.socketLock == None
    ensures IsRun(s, [LockSocketToStop(u), Stop(u)])
    ensures var s' := After(s, [LockSocketToStop(u), Stop(u)]);
            && s'.socketLock == None && !s'.stopping && s'.frames == s.frames && s'.inFlight == s.inFlight
            && (if s.inFlight > 0 then s'.closeWhenDone && s'.open == s.open else !s'.open && s'.closeWhenDone == s.closeWhenDone)
  {
    var s1 := Do(s, LockSocketToStop(u));
    RunCons(s1, Stop(u), []);
    RunCons(s, LockSocketToStop(u), [Stop(u)]);
    assert [LockSocketToStop(u)] + [Stop(u)] == [LockSocketToStop(u), Stop(u)];
  }

  /** A response that asks for the connection to be closed closes the socket before the request lands. */
  lemma {:induction false} ClosingOutcome(s: Client, t: Thread)
    requires TopIs(s, t, Flying) && s.socketLock == None
    ensures IsRun(s, [LockSocketToClose(t), CloseOnDemand(t)])
    ensures After(s, [LockSocketToClose(t), CloseOnDemand(t)]) == s.(open := false)
  {
    var s1 := Do(s, LockSocketToClose(t));
    RunCons(s1, CloseOnDemand(t), []);
    RunCons(s, LockSocketToClose(t), [CloseOnDemand(t)]);
    assert [LockSocketToClose(t)] + [CloseOnDemand(t)] == [LockSocketToClose(t), CloseOnDemand(t)];
    var n := |s.frames| - 1;
    assert Do(s1, CloseOnDemand(t)).frames[n] == s.frames[n];
  }

  function Retries(steps: seq<Step>): nat
  {
    if steps == [] then 0 else Retries(steps[1..]) + if steps[0].Retry? then 1 else 0
  }

  function Requests(steps: seq<Step>): nat
  {
    if steps == [] then 0 else Requests(steps[1..]) + if steps[0].Lock? then 1 else 0
  }

  /** The activations that were not retried yet. */
  function Untried(frames: seq<Frame>): nat
  {
    if frames == [] then 0 else Untried(frames[..|frames| - 1]) + if frames[|frames| - 1].retried then 0 else 1
  }

  lemma {:induction false} UntriedTop(frames: seq<Frame>, changed: seq<Frame>)
    requires |frames| == |changed| > 0 && frames[..|frames| - 1] == changed[..|frames| - 1]
    ensures Untried(changed) == Untried(frames) + (if frames[|frames| - 1].retried then 1 else 0)
                                                - (if changed[|frames| - 1].retried then 1 else 0)
  {
  }

  lemma {:induction false} SameTop(s: Client, pc: Pc, ret: bool, n: nat)
    requires s.frames != [] && n == |s.frames| - 1
    ensures WithTop(s, pc).frames == s.frames[n := s.frames[n].(pc := pc)]
    ensures WithTop(WithRet(s, ret), pc).frames == s.frames[n := s.frames[n].(pc := pc, ret := ret)]
    ensures Kept(s.frames, WithTop(s, pc).frames) && Kept(s.frames, WithTop(WithRet(s, ret), pc).frames)
  {
  }

  predicate Kept(frames: seq<Frame>, changed: seq<Frame>)
    requires frames != []
  {
    && |changed| == |frames| && changed[..|frames| - 1] == frames[..|frames| - 1]
    && changed[|frames| - 1].retried == frames[|frames| - 1].retried
  }

  lemma {:induction false} EnterKeeps(s: Client, t: Thread, alive: bool, connected: bool)
    requires s.frames != []
    ensures Kept(s.frames, Entered(s, t, alive, connected).frames)
  {
    var s1 := s.(closeWhenDone := false, socketLock := None);
    SameTop(s1, Flying, false, |s.frames| - 1);
    SameTop(s1, Left, false, |s.frames| - 1);
  }

  /** Every other step keeps the activations, and what it changes of the innermost is not its retry. */
  lemma {:induction false} SameFrames(s: Client, step: Step)
    requires Enabled(s, step) && !step.Lock? && !step.Unlock? && !step.Retry? && s.frames != []
    ensures Kept(s.frames, Do(s, step).frames)
  {
    var n := |s.frames| - 1;
    match step
    case Enter(t, alive, connected) => EnterKeeps(s, t, alive, connected);
    case Land(_, ret) => SameTop(s, Landing, ret, n);
    case LockSocketToEnter(_) => SameTop(s, EntryLocked, false, n);
    case LockSocketToClose(_) => SameTop(s, CloseLocked, false, n);
    case CloseOnDemand(_) => SameTop(s, Flying, false, n);
    case LockSocketToLand(_) => SameTop(s, LandLocked, false, n);
    case Exit(_) => SameTop(s, Left, false, n);
    case LockSocketToStop(_) =>
    case Stop(_) =>
  }

  lemma {:induction false} UntriedStep(s: Client, step: Step)
    requires Enabled(s, step)
    ensures Untried(Do(s, step).frames) + (if step.Retry? then 1 else 0) <= Untried(s.frames) + (if step.Lock? then 1 else 0)
  {
    var frames := Do(s, step).frames;
    if step.Lock? {
      assert frames[..|s.frames|] == s.frames;
    } else if step.Unlock? {
      assert frames == s.frames[..|s.frames| - 1];
    } else if step.Retry? {
      UntriedTop(s.frames, frames);
    } else if s.frames != [] {
      SameFrames(s, step);
      UntriedTop(s.frames, frames);
    } else {
      assert frames == [];
    }
  }

  /** In every run, no request is retried more than once. */
  lemma {:induction false} RetriedOnce(s: Client, steps: seq<Step>)
    requires IsRun(s, steps)
    ensures Retries(steps) <= Requests(steps) + Untried(s.frames)
    ensures s == Start(s.keepAlive) ==> Retries(steps) <= Requests(steps)
    decreases |steps|
  {
    if steps != [] {
      UntriedStep(s, steps[0]);
      RetriedOnce(Do(s, steps[0]), steps[1..]);
    }
  }
}
