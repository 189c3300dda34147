/** Whole runs of the event loop: safety in every reachable state, and why clients have to keep to their part. */
module AioLoopRuns {
  import opened AioLoop
  import opened Sequences
  import opened AioLoopSteps

  // ---- whole runs ----

  /** The state after a run, when every step of it may be taken. */
  ghost predicate Runs(from: State, moves: seq<Move>, to: State)
    decreases |moves|
  {
    if moves == [] then to == from
    else Enabled(from, moves[0]) && Known(from, moves[0]) && Runs(Step(from, moves[0]), moves[1..], to)
  }

  lemma {:induction false} RunKeeps(from: State, moves: seq<Move>, to: State)
    requires Inv(from) && Runs(from, moves, to)
    ensures Inv(to)
    decreases |moves|
  {
    hide Inv, Enabled, Known, Step;
    if moves != [] {
      StepKeeps(from, moves[0]);
      RunKeeps(Step(from, moves[0]), moves[1..], to);
    }
  }

  lemma StartSound()
    ensures Inv(START)
  {
  }

  /** The number of places a handle's one link node is in. */
  function Places(s: State, id: Id): nat {
    (if id in s.tree then 1 else 0) + (if id in s.incoming then 1 else 0) +
    (if id in s.extern then 1 else 0) + (if id in s.tmp then 1 else 0)
  }

  /** In every reachable state no node was ever linked twice, each handle is in at most one place, its flags say which,
      and a request that has not called back yet is not lost. */
  lemma NeverLinkedTwice(moves: seq<Move>, s: State, id: Id)
    requires Runs(START, moves, s)
    ensures !s.fault && Places(s, id) <= 1
    ensures id !in s.engines ==> Places(s, id) == 0 && id !in s.batch
    ensures id in s.engines ==>
              var e := s.engines[id];
              && (e.inTree <==> id in s.tree) && (e.inIncoming <==> id in s.incoming)
              && (e.inExtern <==> id in s.extern) && (e.inTmp <==> id in s.tmp)
              && (e.action != NoAction && e.fired == 0 ==> Places(s, id) == 1 || e.Registered())
  {
    StartSound();
    RunKeeps(START, moves, s);
    if id in s.engines {
      assert Sound(s, id, s.engines[id]);
    } else {
      assert !Linked(s, id);
    }
  }

  /** In every reachable state a readable, a writeable or a sleep that has left the queues and not called back yet
      is registered for just its event, or in the timeout tree. */
  lemma WaitsWhereAnswered(moves: seq<Move>, s: State, id: Id)
    requires Runs(START, moves, s) && id in s.engines && s.engines[id].fired == 0
    requires id !in s.incoming && id !in s.extern && id !in s.tmp
    ensures var e := s.engines[id];
            && (e.action == Readable ==> e.eventRead && !e.eventWrite)
            && (e.action == Writeable ==> e.eventWrite && !e.eventRead)
            && (e.action == Sleep ==> id in s.tree && !e.Registered())
  {
    StartSound();
    RunKeeps(START, moves, s);
    assert Sound(s, id, s.engines[id]);
  }

  /** The handle a step activates, if any. */
  predicate Activates(s: State, move: Move, id: Id) {
    match move
    case DrainNext(_) => s.tmp != [] && s.tmp[0] == id
    case Expire(x, _) => x == id
    case EventNext(_) => s.batch != [] && s.batch[0] == id
    case _ => false
  }

  /** In every run only a request under way is activated: one that has called back already is activated again only
      if it is a readable or writeable, and a handle without a request never is. */
  lemma OverIsOver(moves: seq<Move>, s: State, move: Move, id: Id)
    requires Runs(START, moves, s) && Enabled(s, move) && Activates(s, move, id)
    ensures id in s.engines && s.engines[id].action != NoAction
    ensures s.engines[id].fired == 0 || s.engines[id].Persistent()
  {
    hide Inv, Over;
    StartSound();
    RunKeeps(START, moves, s);
    ActivatedNotOver(s, move, id);
    NotOver(s.engines[id]);
  }

  lemma NotOver(e: Engine)
    requires !Over(e)
    ensures e.action != NoAction && (e.fired == 0 || e.Persistent())
  {
  }

  lemma ActivatedNotOver(s: State, move: Move, id: Id)
    requires Inv(s) && Enabled(s, move) && Activates(s, move, id)
    ensures id in s.engines && !Over(s.engines[id])
  {
    hide Over, BeforeDrain;
    match move
    case DrainNext(_) =>
      assert id in s.tmp && Linked(s, id);
      assert Sound(s, id, s.engines[id]);
    case Expire(_, _) =>
      assert Sound(s, id, s.engines[id]);
    case EventNext(_) =>
      assert id in s.batch;
      assert Sound(s, id, s.engines[id]);
  }

  // ---- why a client has to keep to MayIssue ----

  /** A request issued whatever the discipline says. */
  function ForceIssue(s: State, id: Id, request: Job): State
    requires id in s.engines
  {
    EnterIncoming(SetRequest(s, id, request), id, true)
  }

  ghost predicate MayFault(s: State) {
    exists moves, s' :: Runs(s, moves, s') && s'.fault
  }

  /** The discipline is exact: on an idle handle a request that keeps to it can never lead to a doubly linked node,
      and any other request can. */
  lemma MayIssueExactly(s: State, id: Id, request: Job)
    requires Inv(s) && InClient(s) && ValidRequest(request)
    requires id in s.engines && !Linked(s, id)
    ensures MayFault(ForceIssue(s, id, request)) <==> !MayIssue(s, id, request)
  {
    hide Inv, MayFault, ForceIssue, BeforeDrain;
    if MayIssue(s, id, request) {
      IssueIsSafe(s, id, request);
    } else if !BeforeDrain(s.phase) {
      LateIssueFaults(s, id, request);
    } else if id in s.batch {
      IssueBeforeEventFaults(s, id, request);
    } else {
      RegisteredCintFaults(s, id, request);
    }
  }

  /** In a callback of the drain or of the timers, on an idle handle: a request may end in a doubly linked node exactly
      when the handle is still registered and the request is for more than a readable or writeable. */
  lemma LateIssueFaultsExactly(s: State, id: Id, request: Job)
    requires Inv(s) && s.phase.Callback? && (s.phase.resume == Drain || s.phase.resume == Timers)
    requires ValidRequest(request) && id in s.engines && !Linked(s, id)
    ensures MayFault(ForceIssue(s, id, request)) <==> s.engines[id].Registered() && !OnlyCallsBack(request)
  {
    hide Inv, MayFault, ForceIssue;
    MayIssueExactly(s, id, request);
  }

  /** Between the events of a round and the next drain, on an idle handle without an event still to come: asking for a
      length with data may end in a doubly linked node exactly when the handle is still registered. The length may be
      there already, and then the handle waits in the queue and in the system at once. */
  lemma RegisteredCintFaultsExactly(s: State, id: Id, request: Job)
    requires Inv(s) && InClient(s) && BeforeDrain(s.phase) && id !in s.batch
    requires ValidRequest(request) && request.action == ReadCint && request.cintWantData
    requires id in s.engines && !Linked(s, id)
    ensures MayFault(ForceIssue(s, id, request)) <==> s.engines[id].Registered()
  {
    hide Inv, MayFault, ForceIssue, BeforeDrain;
    MayIssueExactly(s, id, request);
  }

  /** Whatever is asked of an idle handle that is not registered, and a readable or writeable asked of any idle handle
      at any time: nothing goes wrong afterwards. */
  lemma QuietIssueIsSafe(s: State, id: Id, request: Job)
    requires Inv(s) && InClient(s) && ValidRequest(request) && id in s.engines && !Linked(s, id)
    requires !s.engines[id].Registered() || OnlyCallsBack(request)
    ensures !MayFault(ForceIssue(s, id, request))
  {
    hide Inv, MayFault, ForceIssue, BeforeDrain;
    MayIssueExactly(s, id, request);
  }

  // ---- what keeps to it is safe ----

  lemma IssueIsSafe(s: State, id: Id, request: Job)
    requires Inv(s) && InClient(s) && ValidRequest(request) && MayIssue(s, id, request)
    ensures !MayFault(ForceIssue(s, id, request))
  {
    hide Inv;
    IssueKeeps(s, id, request);
    forall moves, s' | Runs(ForceIssue(s, id, request), moves, s')
      ensures !s'.fault
    {
      RunKeeps(ForceIssue(s, id, request), moves, s');
      NoFault(s');
    }
  }

  lemma NoFault(s: State)
    requires Inv(s)
    ensures !s.fault
  {
  }

  // ---- what does not may fault ----

  lemma FaultLater(s: State, move: Move)
    requires Enabled(s, move) && Known(s, move) && MayFault(Step(s, move))
    ensures MayFault(s)
  {
    hide Enabled, Known, Step;
    var moves, s' :| Runs(Step(s, move), moves, s') && s'.fault;
    assert ([move] + moves)[1..] == moves;
    assert Runs(s, [move] + moves, s');
  }

  lemma FaultNow(s: State)
    requires s.fault
    ensures MayFault(s)
  {
    assert Runs(s, [], s);
  }

  /** Waiting in the queue with a time limit, for more than a call back: an event links the node twice. */
  predicate Doomed(s: State, id: Id) {
    && id in s.engines && id in s.incoming
    && var e := s.engines[id]; e.waitTimeout > -1 && !e.inTree && e.action != NoAction && !e.Persistent()
  }

  lemma DoomedEvent(s: State, id: Id)
    requires Doomed(s, id) && s.phase == Events && s.batch != [] && s.batch[0] == id
    ensures MayFault(s)
  {
    var move := EventNext(WaitFor(s.engines[id].action != Sleep, false));
    assert Enabled(s, move);
    assert Step(s, move).fault;
    FaultNow(Step(s, move));
    FaultLater(s, move);
  }

  lemma DoomedTimers(s: State, id: Id)
    requires Doomed(s, id) && s.engines[id].Registered() && s.phase == Timers
    ensures MayFault(s)
  {
    hide MayFault;
    var s1 := Step(s, EndTimers);
    var s2 := Step(s1, Wait([id]));
    DoomedEvent(s2, id);
    FaultLater(s1, Wait([id]));
    FaultLater(s, EndTimers);
  }

  /** The other handles under way in the drain, none of them queued again. */
  predicate OthersDrained(s: State, id: Id) {
    NoDuplicates(s.tmp) && s.batch == []
    && forall x :: x in s.tmp ==> x != id && x in s.engines && s.engines[x].inTmp && !s.engines[x].inIncoming
  }

  /** In a callback of the drain: with the other handles disarmed, the drain and the timers pass. */
  lemma {:induction false} DoomedDrain(s: State, id: Id)
    requires Doomed(s, id) && s.engines[id].Registered() && s.phase.Callback? && s.phase.resume == Drain
    requires OthersDrained(s, id)
    ensures MayFault(s)
    decreases |s.tmp|
  {
    hide MayFault;
    if s.tmp == [] {
      DoomedTimers(s.(phase := Timers), id);
      FaultLater(s.(phase := Drain), EndDrain);
      FaultLater(s, Return);
    } else {
      var x := s.tmp[0];
      assert x in s.tmp && s.tmp == [x] + s.tmp[1..];
      var s1 := Step(s, Disarm(x));
      assert s1.tmp == s.tmp[1..] && s1.incoming == s.incoming;
      DoomedDrain(s1, id);
      FaultLater(s, Disarm(x));
    }
  }

  /** The request is made and the handle gets a time limit. */
  function Limited(s: State, id: Id, request: Job): State
    requires id in s.engines
  {
    Step(ForceIssue(s, id, request), SetTimeout(id, 0))
  }

  lemma LimitedFaults(s: State, id: Id, request: Job)
    requires InClient(s) && id in s.engines && MayFault(Limited(s, id, request))
    ensures MayFault(ForceIssue(s, id, request))
  {
    hide MayFault;
    FaultLater(ForceIssue(s, id, request), SetTimeout(id, 0));
  }

  lemma LimitedDoomed(s: State, id: Id, request: Job)
    requires Inv(s) && ValidRequest(request) && !OnlyCallsBack(request) && id in s.engines && !Linked(s, id)
    ensures Doomed(Limited(s, id, request), id)
    ensures var s' := Limited(s, id, request);
            && s'.phase == s.phase && s'.batch == s.batch && s'.extern == s.extern && s'.tmp == s.tmp
            && s'.incoming == s.incoming + [id] && s'.engines.Keys == s.engines.Keys
            && (forall x :: x in s.engines && x != id ==> s'.engines[x] == s.engines[x])
            && s'.engines[id] == s.engines[id].(action := request.action, wantLen := request.wantLen,
                                                 cintWantData := request.cintWantData, fired := 0, inBase := true,
                                                 inIncoming := true, waitTimeout := 0)
  {
    assert Sound(s, id, s.engines[id]);
  }

  lemma LateIssueFaults(s: State, id: Id, request: Job)
    requires Inv(s) && InClient(s) && ValidRequest(request) && !OnlyCallsBack(request) && !BeforeDrain(s.phase)
    requires id in s.engines && !Linked(s, id) && s.engines[id].Registered()
    ensures MayFault(ForceIssue(s, id, request))
  {
    hide MayFault, Limited, ForceIssue;
    var s' := Limited(s, id, request);
    LimitedDoomed(s, id, request);
    if s.phase.resume == Timers {
      DoomedTimers(s'.(phase := Timers), id);
      FaultLater(s', Return);
    } else {
      forall x | x in s.tmp
        ensures x != id && x in s.engines && s.engines[x].inTmp && !s.engines[x].inIncoming
      {
        QueuedFlags(s, x);
      }
      DoomedDrain(s', id);
    }
    LimitedFaults(s, id, request);
  }

  /** Every event still to come for another handle may just call back. */
  predicate OthersAnswer(s: State, id: Id) {
    NoDuplicates(s.batch)
    && forall x :: x in s.batch && x != id ==>
         x in s.engines && s.engines[x].action != NoAction && s.engines[x].action != Sleep
  }

  /** The next event of the round calls back, and its callback returns. */
  function EventPast(s: State): State
    requires s.batch != [] && s.batch[0] in s.engines
  {
    Step(s, EventNext(Done)).(phase := Events)
  }

  lemma EventPastFaults(s: State, id: Id)
    requires s.phase == Events && s.batch != [] && s.batch[0] != id && OthersAnswer(s, id)
    requires s.batch[0] in s.engines && MayFault(EventPast(s))
    ensures MayFault(s)
  {
    hide MayFault;
    assert s.batch[0] in s.batch;
    assert Step(Step(s, EventNext(Done)), Return) == EventPast(s);
    FaultLater(Step(s, EventNext(Done)), Return);
    FaultLater(s, EventNext(Done));
  }

  /** What the passing of one event leaves as it is: the queues, the other handles and the place of its own. */
  lemma EventPastMeaning(s: State)
    requires s.batch != [] && s.batch[0] in s.engines
    ensures var s', b := EventPast(s), s.batch[0];
            && s'.batch == s.batch[1..] && s'.phase == Events && s'.incoming == s.incoming && s'.extern == s.extern
            && s'.engines.Keys == s.engines.Keys
            && (forall x :: x in s.engines && x != b ==> s'.engines[x] == s.engines[x])
            && s'.engines[b].inIncoming == s.engines[b].inIncoming && s'.engines[b].inExtern == s.engines[b].inExtern
  {
    var b := s.batch[0];
    var s1 := LeaveTree(s.(batch := s.batch[1..]), b);
    assert s1.engines.Keys == s.engines.Keys;
    assert EventPast(s) == Complete(s1, b).(phase := Events);
  }

  lemma EventPastAnswers(s: State, id: Id)
    requires s.batch != [] && s.batch[0] != id && OthersAnswer(s, id)
    ensures s.batch[0] in s.engines && OthersAnswer(EventPast(s), id)
    ensures id in EventPast(s).batch <==> id in s.batch
  {
    assert s.batch == [s.batch[0]] + s.batch[1..] && s.batch[0] in s.batch;
    EventPastMeaning(s);
    hide EventPast;
  }

  lemma {:induction false} DoomedInBatch(s: State, id: Id)
    requires Doomed(s, id) && s.phase == Events && OthersAnswer(s, id) && id in s.batch
    ensures MayFault(s)
    decreases |s.batch|
  {
    hide MayFault, EventPast, OthersAnswer;
    if s.batch[0] == id {
      DoomedEvent(s, id);
    } else {
      EventPastAnswers(s, id);
      EventPastMeaning(s);
      DoomedInBatch(EventPast(s), id);
      EventPastFaults(s, id);
    }
  }

  lemma LimitedBatch(s: State, id: Id, request: Job)
    requires Inv(s) && ValidRequest(request) && !OnlyCallsBack(request) && id in s.engines && !Linked(s, id)
    ensures OthersAnswer(Limited(s, id, request).(phase := Events), id)
  {
    LimitedDoomed(s, id, request);
    hide Limited, BeforeDrain, Sound, SoundQueues, Doomed;
    forall x | x in s.batch
      ensures x in s.engines && s.engines[x].action != NoAction && s.engines[x].action != Sleep
    {
      BatchBusy(s, x);
    }
  }

  lemma BatchBusy(s: State, x: Id)
    requires Inv(s) && x in s.batch
    ensures x in s.engines && s.engines[x].action != NoAction && s.engines[x].action != Sleep
  {
    assert Sound(s, x, s.engines[x]);
  }

  lemma IssueBeforeEventFaults(s: State, id: Id, request: Job)
    requires Inv(s) && InClient(s) && ValidRequest(request) && !OnlyCallsBack(request) && id in s.batch
    requires id in s.engines && !Linked(s, id)
    ensures MayFault(ForceIssue(s, id, request))
  {
    hide MayFault, Limited, ForceIssue, OthersAnswer;
    var s' := Limited(s, id, request);
    LimitedDoomed(s, id, request);
    LimitedBatch(s, id, request);
    DoomedInBatch(s'.(phase := Events), id);
    FaultLater(s', Return);
    LimitedFaults(s, id, request);
  }

  // ---- a length with data ----

  predicate Requeuing(e: Engine) {
    e.Registered() && e.waitTimeout > -1 && !e.inTree && e.CanRequeue()
  }

  /** The length is there when the queues are drained: the handle queues again, registered as it is. */
  lemma RequeuedDoomed(s: State, id: Id)
    requires s.phase == Drain && s.tmp == [id] && s.incoming == [] && id in s.engines
    requires Requeuing(s.engines[id]) && !s.engines[id].inIncoming
    ensures MayFault(s)
  {
    hide MayFault;
    assert s.tmp[1..] == [];
    var s2 := Step(s, DrainNext(Requeue(1)));
    assert s2.tmp == [] && s2.incoming == [] + [id] && Doomed(s2, id);
    DoomedTimers(s2.(phase := Timers), id);
    FaultLater(s2, EndDrain);
    FaultLater(s, DrainNext(Requeue(1)));
  }

  lemma AloneDoomed(s: State, id: Id)
    requires Queued(s, id) && s.phase == Top && s.incoming == [id] && s.extern == []
    ensures MayFault(s)
  {
    hide MayFault;
    var s1 := Step(s, StartDrain);
    assert s1.tmp == [id] + [] == [id] && id in s1.tmp;
    RequeuedDoomed(s1, id);
    FaultLater(s, StartDrain);
  }

  /** The handle is queued for a length with data, and the flags of all that is queued say so. */
  ghost predicate Queued(s: State, id: Id) {
    && id in s.engines && id in s.incoming && Requeuing(s.engines[id])
    && NoDuplicates(s.incoming) && NoDuplicates(s.extern)
    && (forall x :: x in s.incoming ==> x in s.engines && s.engines[x].inIncoming && !s.engines[x].inExtern)
    && (forall x :: x in s.extern ==> x in s.engines && s.engines[x].inExtern && !s.engines[x].inIncoming)
  }

  lemma {:induction false} RemoveShorter(q: seq<Id>, x: Id)
    requires x in q
    ensures |Remove(q, x)| == |q| - 1
  {
    if q[0] != x {
      RemoveShorter(q[1..], x);
    }
  }

  lemma DisarmQueued(s: State, id: Id, x: Id)
    requires Queued(s, id) && x != id && (x in s.incoming || x in s.extern)
    ensures x in s.engines && Queued(Disable(s, x), id)
    ensures |Disable(s, x).incoming| + |Disable(s, x).extern| == |s.incoming| + |s.extern| - 1
  {
    hide Remove;
    RemoveMeaning(s.incoming, x);
    RemoveMeaning(s.extern, x);
    if x in s.incoming {
      RemoveShorter(s.incoming, x);
    } else {
      RemoveShorter(s.extern, x);
    }
  }

  lemma OtherQueued(s: State, id: Id) returns (x: Id)
    requires Queued(s, id) && !(s.incoming == [id] && s.extern == [])
    ensures x != id && (x in s.incoming || x in s.extern)
  {
    if s.extern != [] {
      x := s.extern[0];
      assert x in s.extern;
    } else if s.incoming[0] != id {
      x := s.incoming[0];
    } else {
      assert |s.incoming| > 1;
      x := s.incoming[1];
    }
  }

  /** At the top of the loop: with the other handles disarmed, the drain finds the length alone. */
  lemma {:induction false} QueuedDoomed(s: State, id: Id)
    requires Queued(s, id) && s.phase == Top && s.batch == []
    ensures MayFault(s)
    decreases |s.incoming| + |s.extern|
  {
    hide MayFault, Queued, Disable, Requeuing;
    if s.incoming == [id] && s.extern == [] {
      AloneDoomed(s, id);
    } else {
      var x := OtherQueued(s, id);
      DisarmQueued(s, id, x);
      DisableBatch(s, x);
      QueuedDoomed(Disable(s, x), id);
      FaultLater(s, Disarm(x));
    }
  }

  /** Between the events of a round: these pass, and the top of the loop is reached. */
  lemma {:induction false} QueuedInBatchDoomed(s: State, id: Id)
    requires Queued(s, id) && s.phase == Events && OthersAnswer(s, id) && id !in s.batch
    ensures MayFault(s)
    decreases |s.batch|
  {
    hide MayFault, EventPast, OthersAnswer, Requeuing;
    if s.batch == [] {
      QueuedDoomed(s.(phase := Top), id);
      FaultLater(s, EndEvents);
    } else {
      EventPastAnswers(s, id);
      EventPastMeaning(s);
      QueuedInBatchDoomed(EventPast(s), id);
      EventPastFaults(s, id);
    }
  }

  lemma LimitedQueued(s: State, id: Id, request: Job)
    requires Inv(s) && ValidRequest(request) && request.action == ReadCint && request.cintWantData
    requires id in s.engines && !Linked(s, id) && s.engines[id].Registered()
    ensures Queued(Limited(s, id, request), id)
  {
    LimitedDoomed(s, id, request);
    assert Requeuing(Limited(s, id, request).engines[id]) by { assert Sound(s, id, s.engines[id]); }
    hide Limited, Inv, Sound, Requeuing, Doomed;
    QueuesDistinct(s);
    DistinctSnoc(s.incoming, id);
    hide NoDuplicates;
    forall x | x in s.incoming || x in s.extern
      ensures x in s.engines && (s.engines[x].inIncoming <==> x in s.incoming) &&
              (s.engines[x].inExtern <==> x in s.extern)
      ensures x in s.incoming ==> x !in s.extern
    {
      QueuedFlags(s, x);
    }
  }

  lemma DistinctSnoc(q: seq<Id>, id: Id)
    requires NoDuplicates(q) && id !in q
    ensures NoDuplicates(q + [id])
  {
  }

  lemma QueuedAtEvents(s: State, id: Id)
    requires Queued(s, id)
    ensures Queued(s.(phase := Events), id)
  {
    hide NoDuplicates, Requeuing;
  }

  lemma QueuesDistinct(s: State)
    requires Inv(s)
    ensures NoDuplicates(s.incoming) && NoDuplicates(s.extern)
  {
  }

  lemma QueuedFlags(s: State, x: Id)
    requires Inv(s) && Linked(s, x)
    ensures x in s.engines && (s.engines[x].inIncoming <==> x in s.incoming) &&
            (s.engines[x].inExtern <==> x in s.extern)
    ensures (s.engines[x].inTmp <==> x in s.tmp)
    ensures !(s.engines[x].inIncoming && (s.engines[x].inExtern || s.engines[x].inTmp))
  {
    assert Sound(s, x, s.engines[x]);
  }

  lemma RegisteredCintFaults(s: State, id: Id, request: Job)
    requires Inv(s) && InClient(s) && BeforeDrain(s.phase) && id !in s.batch
    requires ValidRequest(request) && request.action == ReadCint && request.cintWantData
    requires id in s.engines && !Linked(s, id) && s.engines[id].Registered()
    ensures MayFault(ForceIssue(s, id, request))
  {
    hide MayFault, Limited, ForceIssue, OthersAnswer, Queued;
    var s' := Limited(s, id, request);
    LimitedDoomed(s, id, request);
    LimitedQueued(s, id, request);
    LimitedBatch(s, id, request);
    if s.phase == Top {
      QueuedDoomed(s', id);
    } else {
      var s1 := s'.(phase := Events);
      QueuedAtEvents(s', id);
      QueuedInBatchDoomed(s1, id);
      FaultLater(s', Return);
    }
    LimitedFaults(s, id, request);
  }

  // ---- the state in question is reached ----

  ghost predicate Reached(s: State) {
    exists moves :: Runs(START, moves, s)
  }

  lemma {:induction false} RunsSnoc(from: State, moves: seq<Move>, s: State, move: Move)
    requires Runs(from, moves, s) && Enabled(s, move) && Known(s, move)
    ensures Runs(from, moves + [move], Step(s, move))
    decreases |moves|
  {
    hide Enabled, Known, Step;
    if moves == [] {
      assert moves + [move] == [move] && [move][1..] == [];
      assert Runs(Step(s, move), [], Step(s, move));
    } else {
      assert (moves + [move])[1..] == moves[1..] + [move];
      RunsSnoc(Step(from, moves[0]), moves[1..], s, move);
    }
  }

  lemma ReachedNext(s: State, move: Move)
    requires Reached(s) && Enabled(s, move) && Known(s, move)
    ensures Reached(Step(s, move))
  {
    hide Enabled, Known, Step;
    var moves :| Runs(START, moves, s);
    RunsSnoc(START, moves, s, move);
  }

  function OneHandle(e: Engine, tree: set<Id>, incoming: seq<Id>, tmp: seq<Id>, phase: Phase): State {
    State(map[0 := e], tree, incoming, [], tmp, [], phase, false)
  }

  const LIMITED: Engine := NEW.(waitTimeout := 5)
  const READABLE: Job := Job(Readable, 0, false)
  const ASKED: Engine := LIMITED.(action := Readable, inIncoming := true, inBase := true)
  const GATHERED: Engine := ASKED.(inIncoming := false, inTmp := true)
  const WAITING: Engine := GATHERED.(inTmp := false, eventRead := true, inTree := true)

  lemma AskedReached()
    ensures Reached(OneHandle(ASKED, {}, [0], [], Top))
  {
    hide Reached;
    assert Reached(START) by { StartReached(); }
    ReachedNext(START, Create(0));
    var s1 := OneHandle(NEW, {}, [], [], Top);
    assert Step(START, Create(0)) == s1;
    ReachedNext(s1, SetTimeout(0, 5));
    var s2 := OneHandle(LIMITED, {}, [], [], Top);
    assert Step(s1, SetTimeout(0, 5)) == s2;
    ReachedNext(s2, Issue(0, READABLE));
    assert Step(s2, Issue(0, READABLE)).engines == map[0 := ASKED];
    assert Step(s2, Issue(0, READABLE)) == OneHandle(ASKED, {}, [0], [], Top);
  }

  lemma StartReached()
    ensures Reached(START)
  {
    assert Runs(START, [], START);
  }

  lemma WaitingReached()
    ensures Reached(OneHandle(WAITING, {0}, [], [], Timers))
  {
    hide Reached;
    AskedReached();
    var s3 := OneHandle(ASKED, {}, [0], [], Top);
    ReachedNext(s3, StartDrain);
    var s4 := OneHandle(GATHERED, {}, [], [0], Drain);
    assert [0] + [] == [0];
    assert Step(s3, StartDrain).engines == map[0 := GATHERED];
    assert Step(s3, StartDrain) == s4;
    ReachedNext(s4, DrainNext(WaitFor(true, false)));
    var s5 := OneHandle(WAITING, {0}, [], [], Drain);
    assert [0][1..] == [] && {} + {0} == {0};
    assert Step(s4, DrainNext(WaitFor(true, false))).engines == map[0 := WAITING];
    assert Step(s4, DrainNext(WaitFor(true, false))) == s5;
    ReachedNext(s5, EndDrain);
  }

  /** A readable whose time limit runs out is still registered while its callback runs. */
  lemma LateIssueReached()
    ensures exists s ::
              && Reached(s) && s.phase == Callback(0, Timers) && 0 in s.engines && !Linked(s, 0)
              && s.engines[0].waitTimeout > -1 && s.engines[0].Registered()
  {
    hide Reached;
    WaitingReached();
    var s6 := OneHandle(WAITING, {0}, [], [], Timers);
    ReachedNext(s6, Expire(0, Done));
    var s7 := Step(s6, Expire(0, Done));
    assert s7.engines[0].Registered() && !Linked(s7, 0) && s7.phase == Callback(0, Timers);
  }

  /** A readable that is reported ready is still registered while its callback runs, with nothing else to do. */
  lemma EventCallbackReached()
    ensures exists s ::
              && Reached(s) && s.phase == Callback(0, Events) && s.batch == [] && s.incoming == [] && s.extern == []
              && 0 in s.engines && !Linked(s, 0) && s.engines[0].Registered()
  {
    hide Reached;
    WaitingReached();
    var s6 := OneHandle(WAITING, {0}, [], [], Timers);
    ReachedNext(s6, EndTimers);
    var s7 := OneHandle(WAITING, {0}, [], [], Poll);
    assert Step(s6, EndTimers) == s7;
    ReachedNext(s7, Wait([0]));
    var s8 := Step(s7, Wait([0]));
    assert s8.batch[1..] == [];
    ReachedNext(s8, EventNext(Done));
    var s9 := Step(s8, EventNext(Done));
    assert s9.engines[0].Registered() && !Linked(s9, 0) && s9.phase == Callback(0, Events) && s9.batch == [];
  }
}
