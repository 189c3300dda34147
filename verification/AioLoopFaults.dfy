/** What the fault of the event loop stands for: as long as none has been seen, no node is linked twice, whatever clients
    and the system did. */
module AioLoopFaults {
  import opened AioLoop

  /** How often the one node of a handle is linked. */
  function Links(s: State, id: Id): nat {
    (if id in s.tree then 1 else 0) + multiset(s.incoming)[id] + multiset(s.extern)[id] + multiset(s.tmp)[id]
  }

  lemma LinkedMeaning(s: State, id: Id)
    ensures Linked(s, id) <==> Links(s, id) > 0
  {
  }

  lemma EnterLinks(s: State, id: Id, self: bool, x: Id)
    requires id in s.engines && Links(s, x) <= 1 && !EnterIncoming(s, id, self).fault
    ensures Links(EnterIncoming(s, id, self), x) <= 1 && !s.fault
  {
    LinkedMeaning(s, id);
  }

  lemma MonitorLinks(s: State, id: Id, read: bool, write: bool, x: Id)
    requires id in s.engines && Links(s, x) <= 1 && !MonitorActive(s, id, read, write).fault
    ensures Links(MonitorActive(s, id, read, write), x) <= 1 && !s.fault
  {
    LinkedMeaning(s, id);
  }

  lemma ActivateLinks(s: State, id: Id, outcome: Outcome, x: Id)
    requires id in s.engines && Links(s, x) <= 1 && !Activate(s, id, outcome).fault
    ensures Links(Activate(s, id, outcome), x) <= 1 && !s.fault
  {
    hide MonitorActive, EnterIncoming;
    match outcome
    case Done =>
    case WaitFor(read, write) => MonitorLinks(s, id, read, write, x);
    case Requeue(size) => EnterLinks(Put(s, id, s.engines[id].(wantLen := size)), id, true, x);
    case Nothing =>
  }

  lemma {:induction false} RemoveLinks(q: seq<Id>, id: Id, x: Id)
    ensures multiset(Remove(q, id))[x] <= multiset(q)[x]
  {
    if q != [] {
      assert q == [q[0]] + q[1..];
      if q[0] != id { RemoveLinks(q[1..], id, x); }
    }
  }

  lemma DisableLinks(s: State, id: Id, x: Id)
    requires id in s.engines && Links(s, x) <= 1 && !Disable(s, id).fault
    ensures Links(Disable(s, id), x) <= 1 && !s.fault
  {
    hide Remove;
    RemoveLinks(s.incoming, id, x);
    RemoveLinks(s.extern, id, x);
    RemoveLinks(s.tmp, id, x);
  }

  lemma LeaveLinks(s: State, id: Id, x: Id)
    requires id in s.engines && Links(s, x) <= 1
    ensures Links(LeaveTree(s, id), x) <= 1 && (!LeaveTree(s, id).fault ==> !s.fault)
    ensures LeaveTree(s, id).engines.Keys == s.engines.Keys
  {
  }

  lemma LeaveTmpLinks(s: State, x: Id)
    requires s.tmp != [] && s.tmp[0] in s.engines && Links(s, x) <= 1
    ensures Links(LeaveTmp(s), x) <= 1 && LeaveTmp(s).fault == s.fault
    ensures LeaveTmp(s).engines.Keys == s.engines.Keys
  {
    assert s.tmp == [s.tmp[0]] + s.tmp[1..];
  }

  lemma StepLinks(s: State, move: Move, x: Id)
    requires Known(s, move) && Links(s, x) <= 1 && !Step(s, move).fault
    ensures Links(Step(s, move), x) <= 1 && !s.fault
  {
    hide EnterIncoming, Activate, LeaveTree, LeaveTmp, Disable, Links;
    match move
    case Issue(id, request) =>
      SamePlacesLinks(s, SetRequest(s, id, request), x);
      EnterLinks(SetRequest(s, id, request), id, true, x);
    case Post(id, request) =>
      SamePlacesLinks(s, SetRequest(s, id, request), x);
      EnterLinks(SetRequest(s, id, request), id, false, x);
    case Disarm(id) => DisableLinks(s, id, x);
    case Close(id) =>
      DisableLinks(s, id, x);
      SamePlacesLinks(Disable(s, id), Step(s, move), x);
    case StartDrain => GatherLinks(s, x);
    case DrainNext(outcome) =>
      LeaveTmpLinks(s, x);
      ActivateLinks(LeaveTmp(s), s.tmp[0], outcome, x);
    case Expire(id, outcome) =>
      LeaveLinks(s, id, x);
      ActivateLinks(LeaveTree(s, id), id, outcome, x);
    case EventNext(outcome) =>
      var s1 := s.(batch := s.batch[1..]);
      SamePlacesLinks(s, s1, x);
      LeaveLinks(s1, s.batch[0], x);
      ActivateLinks(LeaveTree(s1, s.batch[0]), s.batch[0], outcome, x);
    case _ => SamePlacesLinks(s, Step(s, move), x);
  }

  lemma SamePlacesLinks(s: State, s': State, x: Id)
    requires s'.tree == s.tree && s'.incoming == s.incoming && s'.extern == s.extern && s'.tmp == s.tmp
    ensures Links(s', x) == Links(s, x)
  {
  }

  lemma GatherLinks(s: State, x: Id)
    requires Links(s, x) <= 1
    ensures Links(Gather(s), x) <= 1
  {
    hide Moved;
  }

  /** A run in which anything may happen, allowed or not, as long as the handles concerned exist. */
  ghost predicate AnyRun(from: State, moves: seq<Move>, to: State)
    decreases |moves|
  {
    if moves == [] then to == from else Known(from, moves[0]) && AnyRun(Step(from, moves[0]), moves[1..], to)
  }

  /** As long as no fault has been seen, every node is linked once at most. */
  lemma {:induction false} NoFaultNoDouble(moves: seq<Move>, s: State, id: Id)
    requires AnyRun(START, moves, s) && !s.fault
    ensures Links(s, id) <= 1
  {
    RunLinks(START, moves, s, id);
  }

  lemma {:induction false} RunLinks(from: State, moves: seq<Move>, s: State, id: Id)
    requires AnyRun(from, moves, s) && !s.fault && Links(from, id) <= 1
    ensures Links(s, id) <= 1 && !from.fault
    decreases |moves|
  {
    hide Step, Known, Links;
    if moves != [] {
      var next := Step(from, moves[0]);
      FaultBefore(next, moves[1..], s);
      StepLinks(from, moves[0], id);
      RunLinks(next, moves[1..], s, id);
    }
  }

  lemma FaultStays(s: State, move: Move)
    requires Known(s, move) && s.fault
    ensures Step(s, move).fault
  {
  }

  lemma {:induction false} FaultBefore(from: State, moves: seq<Move>, s: State)
    requires AnyRun(from, moves, s) && !s.fault
    ensures !from.fault
    decreases |moves|
  {
    hide Step, Known;
    if moves != [] {
      FaultBefore(Step(from, moves[0]), moves[1..], s);
      if from.fault { FaultStays(from, moves[0]); }
    }
  }
}
