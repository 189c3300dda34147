/** What every step of the event loop keeps: the flags of a handle tell where its one link node is. */
module AioLoopSteps {
  import opened AioStage
  import opened AioLoop
  import opened Sequences

  // ---- the invariant ----

  /** The flags of a handle say where its node is, and it is in one place at most. */
  predicate Placed(s: State, id: Id, e: Engine) {
    && (e.inTree <==> id in s.tree) && (e.inIncoming <==> id in s.incoming)
    && (e.inExtern <==> id in s.extern) && (e.inTmp <==> id in s.tmp)
    && !(e.inTree && (e.inIncoming || e.inExtern || e.inTmp))
    && !(e.inIncoming && (e.inExtern || e.inTmp)) && !(e.inExtern && e.inTmp)
  }

  /** Over: nothing under way, or called back already (and not for ever). */
  predicate Over(e: Engine) {
    e.action == NoAction || (e.fired > 0 && !e.Persistent())
  }

  /** A request out of the queues and not called back yet is where its answer can reach it. */
  predicate Awaits(e: Engine) {
    e.fired == 0 && !e.inIncoming && !e.inExtern && !e.inTmp ==>
      && (e.action == Readable ==> e.eventRead && !e.eventWrite)
      && (e.action == Writeable ==> e.eventWrite && !e.eventRead)
      && (e.action == Sleep ==> e.inTree && !e.Registered())
  }

  predicate Sound(s: State, id: Id, e: Engine) {
    && Placed(s, id, e)
    && (Over(e) ==> e.Quiet())
    && (!e.inBase ==> e.action == NoAction)
    && (!e.Persistent() ==> e.fired <= 1 || e.action == NoAction)
    && (e.action != NoAction && e.fired == 0 ==> e.Flagged() || e.Registered())
    && Awaits(e)
    && (e.Registered() && (e.inIncoming || e.inTmp) ==> !e.CanRequeue())
    && (e.Registered() && e.inIncoming ==> BeforeDrain(s.phase) || e.Persistent())
    && (e.inExtern ==> !e.Registered())
    && (e.inTree ==> e.action == Sleep || e.Registered())
  }

  /** An event may come for it: it waits in the system, or also in the queue when the event will only call back. */
  predicate ReadyForEvent(e: Engine) {
    e.Registered() && !e.inExtern && !e.inTmp && (e.inIncoming ==> e.Persistent())
  }

  predicate SoundBatch(s: State) {
    && NoDuplicates(s.batch)
    && (s.batch != [] ==> s.phase == Events || (s.phase.Callback? && s.phase.resume == Events))
    && forall id :: id in s.batch ==>
         id in s.engines && ReadyForEvent(s.engines[id])
  }

  ghost predicate SoundQueues(s: State) {
    && NoDuplicates(s.incoming) && NoDuplicates(s.extern) && NoDuplicates(s.tmp)
    && (s.tmp != [] ==> s.phase == Drain || (s.phase.Callback? && s.phase.resume == Drain))
    && forall id :: Linked(s, id) ==> id in s.engines
  }

  predicate SoundPhase(p: Phase) {
    p.Callback? ==> p.resume == Drain || p.resume == Timers || p.resume == Events
  }

  ghost predicate Inv(s: State) {
    && !s.fault && SoundPhase(s.phase) && SoundQueues(s) && SoundBatch(s)
    && forall id :: id in s.engines ==> Sound(s, id, s.engines[id])
  }

  // ---- every step keeps the invariant ----

  lemma {:induction false} RemoveMeaning(q: seq<Id>, id: Id)
    requires NoDuplicates(q)
    ensures NoDuplicates(Remove(q, id)) && forall x :: x in Remove(q, id) <==> x in q && x != id
  {
    if q != [] && q[0] != id {
      RemoveMeaning(q[1..], id);
      var r := Remove(q[1..], id);
      assert q[0] !in q[1..];
      assert forall x :: x in q <==> x == q[0] || x in q[1..];
    } else if q != [] {
      assert q[0] !in q[1..];
      assert forall x :: x in q <==> x == q[0] || x in q[1..];
    }
  }

  /** The two states differ at the handle id only. */
  ghost predicate SameElsewhere(s: State, s': State, id: Id) {
    && s'.engines.Keys - {id} == s.engines.Keys - {id}
    && (forall x :: x in s.engines && x != id ==> x in s'.engines && s'.engines[x] == s.engines[x])
    && forall x :: x != id ==> SamePlaces(s, s', x)
  }

  predicate SamePlaces(s: State, s': State, x: Id) {
    && (x in s'.tree <==> x in s.tree) && (x in s'.incoming <==> x in s.incoming)
    && (x in s'.extern <==> x in s.extern) && (x in s'.tmp <==> x in s.tmp)
  }

  ghost predicate OthersSound(s: State, id: Id) {
    forall x :: x in s.engines && x != id ==> Sound(s, x, s.engines[x])
  }

  lemma OthersKept(s: State, s': State, id: Id)
    requires OthersSound(s, id) && SameElsewhere(s, s', id) && (BeforeDrain(s.phase) ==> BeforeDrain(s'.phase))
    ensures OthersSound(s', id)
  {
    hide Over, BeforeDrain;
    forall x | x in s'.engines && x != id
      ensures Sound(s', x, s'.engines[x])
    {
      assert x in s'.engines.Keys - {id};
      assert Sound(s, x, s.engines[x]) && SamePlaces(s, s', x);
    }
  }

  /** All but what concerns one handle. */
  ghost predicate InvBut(s: State, id: Id) {
    && !s.fault && SoundPhase(s.phase) && SoundQueues(s) && SoundBatch(s) && OthersSound(s, id)
  }

  lemma AllSound(s: State, id: Id)
    requires InvBut(s, id) && (id in s.engines ==> Sound(s, id, s.engines[id]))
    ensures Inv(s)
  {
    hide Sound, SoundBatch, SoundQueues;
  }

  lemma ButOne(s: State, id: Id)
    requires Inv(s)
    ensures InvBut(s, id) && (id in s.engines ==> Sound(s, id, s.engines[id]))
  {
    hide Sound, SoundBatch, SoundQueues;
  }

  lemma CreateKeeps(s: State, id: Id)
    requires Inv(s) && Enabled(s, Create(id))
    ensures Inv(Step(s, Create(id)))
  {
    hide Inv, OthersSound;
    ButOne(s, id);
    OthersKept(s, Step(s, Create(id)), id);
    AllSound(Step(s, Create(id)), id);
  }

  lemma SetTimeoutKeeps(s: State, id: Id, timeout: int)
    requires Inv(s) && Enabled(s, SetTimeout(id, timeout))
    ensures Inv(Step(s, SetTimeout(id, timeout)))
  {
    hide Inv, OthersSound, BeforeDrain;
    var s' := Step(s, SetTimeout(id, timeout));
    ButOne(s, id);
    OthersKept(s, s', id);
    assert SoundBatch(s') && SoundQueues(s');
    AllSound(s', id);
  }

  /** An idle handle enters a queue: its node is free. */
  lemma EnterKeeps(s: State, id: Id, self: bool)
    requires InvBut(s, id) && id in s.engines && !Linked(s, id) && !s.engines[id].Flagged()
    requires !Over(s.engines[id]) && (!s.engines[id].Persistent() ==> s.engines[id].fired <= 1 && id !in s.batch)
    requires s.engines[id].Registered() ==> self && !s.engines[id].CanRequeue()
    requires s.engines[id].Registered() ==> BeforeDrain(s.phase) || s.engines[id].Persistent()
    ensures Inv(EnterIncoming(s, id, self))
  {
    hide Inv, OthersSound, BeforeDrain, SoundPhase;
    var s' := EnterIncoming(s, id, self);
    OthersKept(s, s', id);
    assert SoundBatch(s') && SoundQueues(s');
    assert Sound(s', id, s'.engines[id]);
    AllSound(s', id);
  }

  lemma IssueKeeps(s: State, id: Id, request: Job)
    requires Inv(s) && Enabled(s, Issue(id, request))
    ensures Inv(Step(s, Issue(id, request)))
  {
    hide Inv, OthersSound, BeforeDrain, EnterIncoming;
    ButOne(s, id);
    var s1 := SetRequest(s, id, request);
    OthersKept(s, s1, id);
    assert SoundBatch(s1) && SoundQueues(s1);
    EnterKeeps(s1, id, true);
  }

  lemma PostKeeps(s: State, id: Id, request: Job)
    requires Inv(s) && Enabled(s, Post(id, request))
    ensures Inv(Step(s, Post(id, request)))
  {
    hide Inv, OthersSound, BeforeDrain, EnterIncoming;
    ButOne(s, id);
    var s1 := SetRequest(s, id, request);
    OthersKept(s, s1, id);
    assert SoundBatch(s1) && SoundQueues(s1);
    EnterKeeps(s1, id, false);
  }

  lemma DisarmKeeps(s: State, id: Id)
    requires Inv(s) && id in s.engines && id !in s.batch
    ensures Inv(Disable(s, id)) && Disable(s, id).engines[id].Quiet() && !Linked(Disable(s, id), id)
  {
    hide Inv, OthersSound, BeforeDrain, Remove;
    ButOne(s, id);
    RemoveMeaning(s.incoming, id);
    RemoveMeaning(s.extern, id);
    RemoveMeaning(s.tmp, id);
    var s' := Disable(s, id);
    assert SameElsewhere(s, s', id) by { hide SoundBatch, Sound; }
    OthersKept(s, s', id);
    assert SoundBatch(s') && SoundQueues(s');
    AllSound(s', id);
  }

  lemma CloseKeeps(s: State, id: Id)
    requires Inv(s) && Enabled(s, Close(id))
    ensures Inv(Step(s, Close(id)))
  {
    hide Inv, OthersSound, BeforeDrain, Disable;
    DisarmKeeps(s, id);
    var d, s' := Disable(s, id), Step(s, Close(id));
    ButOne(d, id);
    DisableBatch(s, id);
    OthersKept(d, s', id);
    assert SoundBatch(s') && SoundQueues(s');
    AllSound(s', id);
  }

  lemma DisableBatch(s: State, id: Id)
    requires id in s.engines
    ensures Disable(s, id).batch == s.batch && Disable(s, id).phase == s.phase
  {
  }

  /** The two queues hold different handles. */
  lemma QueuesApart(s: State)
    requires Inv(s)
    ensures NoDuplicates(s.incoming + s.extern)
  {
    hide Over, BeforeDrain;
    var all := s.incoming + s.extern;
    forall i, j | 0 <= i < j < |all|
      ensures all[i] != all[j]
    {
      if i < |s.incoming| <= j {
        var x, y := s.incoming[i], s.extern[j - |s.incoming|];
        assert x in s.incoming && y in s.extern && Linked(s, x) && Linked(s, y);
        assert Sound(s, x, s.engines[x]) && Sound(s, y, s.engines[y]);
      }
    }
  }

  lemma GatheredSound(s: State, id: Id)
    requires id in s.engines && Sound(s, id, s.engines[id]) && s.tmp == [] && s.phase == Top
    ensures Sound(Gather(s), id, Gather(s).engines[id])
  {
    var all := s.incoming + s.extern;
    assert id in all <==> id in s.incoming || id in s.extern;
  }

  lemma GatherKeeps(s: State)
    requires Inv(s) && Enabled(s, StartDrain)
    ensures Inv(Step(s, StartDrain))
  {
    hide BeforeDrain, Over, Sound;
    var s' := Step(s, StartDrain);
    QueuesApart(s);
    forall id | id in s'.engines
      ensures Sound(s', id, s'.engines[id])
    {
      GatheredSound(s, id);
    }
    assert SoundQueues(s') by {
      assert forall id :: Linked(s', id) ==> Linked(s, id);
    }
  }

  // ---- activities ----

  /** A handle taken out of its place to be activated. */
  ghost predicate Taken(s: State, id: Id) {
    && InvBut(s, id) && id in s.engines && !Linked(s, id) && id !in s.batch && !s.phase.Callback?
    && !s.engines[id].Flagged() && !Over(s.engines[id]) && s.engines[id].inBase
  }

  lemma CompleteKeeps(s: State, id: Id)
    requires Taken(s, id) && (s.phase == Drain || s.phase == Timers || s.phase == Events)
    ensures Inv(Complete(s, id))
    ensures Over(Complete(s, id).engines[id]) ==> Complete(s, id).engines[id].Quiet()
  {
    CompleteElsewhere(s, id);
    hide Inv, OthersSound, SameElsewhere;
    var s' := Complete(s, id);
    OthersKept(s, s', id);
    assert SoundBatch(s') && SoundQueues(s');
    AllSound(s', id);
  }

  lemma WaitSound(s: State, id: Id, stage: Stage, read: bool, write: bool)
    requires Taken(s, id) && Possible(s.engines[id], stage, WaitFor(read, write))
    ensures var s' := MonitorActive(s, id, read, write); Sound(s', id, s'.engines[id]) && !s'.fault
  {
    hide OthersSound, BeforeDrain, SoundBatch, SoundQueues;
  }

  lemma WaitElsewhere(s: State, id: Id, read: bool, write: bool)
    requires id in s.engines
    ensures SameElsewhere(s, MonitorActive(s, id, read, write), id)
  {
  }

  lemma CompleteElsewhere(s: State, id: Id)
    requires id in s.engines
    ensures SameElsewhere(s, Complete(s, id), id)
  {
  }

  lemma WaitKeeps(s: State, id: Id, stage: Stage, read: bool, write: bool)
    requires Taken(s, id) && Possible(s.engines[id], stage, WaitFor(read, write))
    ensures Inv(MonitorActive(s, id, read, write))
  {
    WaitSound(s, id, stage, read, write);
    WaitElsewhere(s, id, read, write);
    hide Inv, OthersSound, BeforeDrain, Sound, Possible, Over, SameElsewhere;
    var s' := MonitorActive(s, id, read, write);
    OthersKept(s, s', id);
    assert SoundBatch(s') && SoundQueues(s');
    AllSound(s', id);
  }

  lemma RequeueKeeps(s: State, id: Id, size: nat)
    requires Taken(s, id) && s.engines[id].CanRequeue() && size > 0
    requires s.engines[id].Registered() ==> BeforeDrain(s.phase)
    ensures Inv(Activate(s, id, Requeue(size)))
  {
    hide Inv, OthersSound, BeforeDrain, EnterIncoming;
    var s1 := Put(s, id, s.engines[id].(wantLen := size));
    OthersKept(s, s1, id);
    assert SoundBatch(s1) && SoundQueues(s1);
    EnterKeeps(s1, id, true);
  }

  lemma ActivateKeeps(s: State, id: Id, stage: Stage, outcome: Outcome)
    requires Taken(s, id) && (s.phase == Drain || s.phase == Timers || s.phase == Events)
    requires Possible(s.engines[id], stage, outcome)
    requires stage != Timeout && s.engines[id].Registered() && s.engines[id].CanRequeue() ==> BeforeDrain(s.phase)
    ensures Inv(Activate(s, id, outcome))
  {
    hide Inv, InvBut, Complete, MonitorActive, EnterIncoming, BeforeDrain;
    match outcome
    case Done => CompleteKeeps(s, id);
    case WaitFor(read, write) => WaitKeeps(s, id, stage, read, write);
    case Requeue(size) => RequeueKeeps(s, id, size);
    case Nothing => assert false;
  }

  /** Taking a handle out of its one place leaves its node free. */
  lemma TakeOut(s: State, s': State, id: Id)
    requires Inv(s) && id in s.engines && !s.engines[id].Quiet() && !s.phase.Callback?
    requires SameElsewhere(s, s', id) && s'.phase == s.phase && !s'.fault && id in s'.engines
    requires s'.engines[id] == s.engines[id].(inTree := false, inTmp := false) && !s'.engines[id].Flagged()
    requires SoundQueues(s') && SoundBatch(s') && !Linked(s', id) && id !in s'.batch
    ensures Taken(s', id)
  {
    hide OthersSound, SameElsewhere, SoundQueues, SoundBatch, Inv, BeforeDrain;
    ButOne(s, id);
    OthersKept(s, s', id);
  }

  lemma DrainNextTakes(s: State, outcome: Outcome)
    requires Inv(s) && Enabled(s, DrainNext(outcome))
    ensures var s' := LeaveTmp(s); var id := s.tmp[0];
            && Taken(s', id) && s'.phase == Drain
            && s'.engines[id] == s.engines[id].(inTmp := false)
            && !(s.engines[id].Registered() && s.engines[id].CanRequeue())
  {
    hide BeforeDrain, Over;
    var id, s' := s.tmp[0], LeaveTmp(s);
    assert Linked(s, id) && Sound(s, id, s.engines[id]);
    assert s.tmp == [id] + s.tmp[1..];
    assert id !in s'.tmp;
    TakeOut(s, s', id);
  }

  lemma ExpireTakes(s: State, id: Id, outcome: Outcome)
    requires Inv(s) && Enabled(s, Expire(id, outcome))
    ensures Taken(LeaveTree(s, id), id) && LeaveTree(s, id).phase == Timers
    ensures LeaveTree(s, id).engines[id] == s.engines[id].(inTree := false)
  {
    hide BeforeDrain, Over;
    assert Sound(s, id, s.engines[id]);
    TakeOut(s, LeaveTree(s, id), id);
  }

  lemma FirstOfBatch(s: State)
    requires SoundBatch(s) && s.batch != []
    ensures s.batch[0] in s.batch && s.batch[0] !in s.batch[1..] && SoundBatch(s.(batch := s.batch[1..]))
  {
    assert s.batch == [s.batch[0]] + s.batch[1..];
  }

  lemma EventNextTakes(s: State, outcome: Outcome)
    requires Inv(s) && Enabled(s, EventNext(outcome)) && !s.engines[s.batch[0]].inIncoming
    ensures var id := s.batch[0]; var s' := LeaveTree(s.(batch := s.batch[1..]), id);
            Taken(s', id) && s'.phase == Events && s'.engines[id] == s.engines[id].(inTree := false)
  {
    hide BeforeDrain, Over;
    var id := s.batch[0];
    var s' := LeaveTree(s.(batch := s.batch[1..]), id);
    FirstOfBatch(s);
    assert Sound(s, id, s.engines[id]);
    assert !Linked(s', id);
    assert SoundBatch(s');
    TakeOut(s, s', id);
  }

  /** An event for a readable or writeable that is queued once more only calls back: its node stays in the queue. */
  lemma EventOnQueuedKeeps(s: State, outcome: Outcome)
    requires Inv(s) && Enabled(s, EventNext(outcome)) && s.engines[s.batch[0]].inIncoming
    ensures Inv(Step(s, EventNext(outcome)))
  {
    hide Inv, OthersSound, Over;
    var id, s' := s.batch[0], Step(s, EventNext(outcome));
    ButOne(s, id);
    FirstOfBatch(s);
    assert outcome == Done && s' == Complete(s.(batch := s.batch[1..]), id);
    OthersKept(s, s', id);
    assert SoundBatch(s') && SoundQueues(s');
    assert Sound(s', id, s'.engines[id]) by { QueuedCallback(s.engines[id]); }
    AllSound(s', id);
  }

  lemma QueuedCallback(e: Engine)
    requires e.Persistent()
    ensures !Over(e) && !Over(e.(fired := e.fired + 1))
  {
  }

  lemma WaitReportKeeps(s: State, ready: seq<Id>)
    requires Inv(s) && Enabled(s, Wait(ready))
    ensures Inv(Step(s, Wait(ready)))
  {
    hide Over;
    var s' := Step(s, Wait(ready));
    forall id | id in s'.engines
      ensures Sound(s', id, s'.engines[id])
    {
      assert Sound(s, id, s.engines[id]);
    }
  }

  /** Steps that only move the loop thread on. */
  lemma MovesOnKeeps(s: State, move: Move)
    requires Inv(s) && Enabled(s, move)
    requires move == Return || move == SkipDrain || move == EndDrain || move == EndTimers || move == EndEvents
    ensures Inv(Step(s, move))
  {
    hide Over;
    var s' := Step(s, move);
    forall id | id in s'.engines
      ensures Sound(s', id, s'.engines[id])
    {
      assert Sound(s, id, s.engines[id]);
    }
    assert SoundQueues(s') by {
      assert forall id :: Linked(s', id) ==> Linked(s, id);
    }
  }

  lemma EnabledKnown(s: State, move: Move)
    requires Enabled(s, move)
    ensures Known(s, move)
  {
  }

  lemma EventNextKeeps(s: State, outcome: Outcome)
    requires Inv(s) && Enabled(s, EventNext(outcome))
    ensures Inv(Step(s, EventNext(outcome)))
  {
    hide Inv, Taken, Activate, LeaveTree, Sound, Over;
    if s.engines[s.batch[0]].inIncoming {
      EventOnQueuedKeeps(s, outcome);
    } else {
      EventNextTakes(s, outcome);
      ActivateKeeps(LeaveTree(s.(batch := s.batch[1..]), s.batch[0]), s.batch[0], Epoll, outcome);
    }
  }

  /** Every step that may be taken keeps the invariant. */
  lemma StepKeeps(s: State, move: Move)
    requires Inv(s) && Enabled(s, move)
    ensures Known(s, move) && Inv(Step(s, move))
  {
    hide Inv, Taken, Activate, LeaveTmp, LeaveTree, Disable, EnterIncoming, Gather, Sound, Over;
    EnabledKnown(s, move);
    match move
    case Create(id) => CreateKeeps(s, id);
    case SetTimeout(id, timeout) => SetTimeoutKeeps(s, id, timeout);
    case Issue(id, request) => IssueKeeps(s, id, request);
    case Post(id, request) => PostKeeps(s, id, request);
    case Disarm(id) => DisarmKeeps(s, id);
    case Close(id) => CloseKeeps(s, id);
    case StartDrain => GatherKeeps(s);
    case DrainNext(outcome) =>
      DrainNextTakes(s, outcome);
      ActivateKeeps(LeaveTmp(s), s.tmp[0], Incoming, outcome);
    case Expire(id, outcome) =>
      ExpireTakes(s, id, outcome);
      ActivateKeeps(LeaveTree(s, id), id, Timeout, outcome);
    case Wait(ready) => WaitReportKeeps(s, ready);
    case EventNext(outcome) => EventNextKeeps(s, outcome);
    case _ => MovesOnKeeps(s, move);
  }
}
