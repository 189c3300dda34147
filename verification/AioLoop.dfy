/** The event loop: one link node per handle, shared by a timeout tree and three queues. Every step of the loop thread,
    of its callbacks and of other threads is a step of a state machine; what the system answers is left open. */
module AioLoop {
  import opened AioStage
  import opened Sequences

  type Id = nat

  // ---- handles ----

  datatype Action =
    | NoAction | Readable | Writeable | Read | ReadN | ReadDelimiter | ReadCint | WriteN | TlsConnect | TlsAccept
    | Sleep

  datatype Job = Job(action: Action, wantLen: int, cintWantData: bool)

  /** One handle; fired counts the callbacks of the current request. */
  datatype Engine = Engine(action: Action, wantLen: int, cintWantData: bool, waitTimeout: int,
                           inTree: bool, inIncoming: bool, inExtern: bool, inTmp: bool, inBase: bool,
                           eventRead: bool, eventWrite: bool, fired: nat)
  {
    /** Known to the system as waiting for events. */
    predicate Registered() { eventRead || eventWrite }

    /** By its flags, in the tree or in a queue. */
    predicate Flagged() { inTree || inIncoming || inExtern || inTmp }

    predicate Quiet() { !Registered() && !Flagged() }

    /** These stay registered after their callback and may call back again. */
    predicate Persistent() { action == Readable || action == Writeable }

    /** A length request that will enter the queue once more for its data. */
    predicate CanRequeue() { action == ReadCint && cintWantData && wantLen < 0 }
  }

  const NEW: Engine := Engine(NoAction, 0, false, -1, false, false, false, false, false, false, false, 0)

  // ---- the loop ----

  /** Where the loop thread is. Callback: in client code called for one handle. */
  datatype Phase = Top | Drain | Timers | Poll | Events | Callback(own: Id, resume: Phase)

  /** fault: a link node was attached while it was still linked elsewhere, or detached from where it was not. */
  datatype State = State(engines: map<Id, Engine>, tree: set<Id>, incoming: seq<Id>, extern: seq<Id>, tmp: seq<Id>,
                         batch: seq<Id>, phase: Phase, fault: bool)

  const START: State := State(map[], {}, [], [], [], [], Top, false)

  predicate Linked(s: State, id: Id) {
    id in s.tree || id in s.incoming || id in s.extern || id in s.tmp
  }

  function Put(s: State, id: Id, e: Engine): State {
    s.(engines := s.engines[id := e])
  }

  function Remove(q: seq<Id>, id: Id): (r: seq<Id>) {
    if q == [] then [] else if q[0] == id then q[1..] else [q[0]] + Remove(q[1..], id)
  }

  // ---- the parts of the loop ----

  /** A request enters the queue of the loop thread, or the one other threads use. */
  function EnterIncoming(s: State, id: Id, self: bool): State
    requires id in s.engines
  {
    var e := s.engines[id].(inBase := true);
    if self then
      if e.inIncoming then Put(s, id, e)
      else Put(s, id, e.(inIncoming := true)).(incoming := s.incoming + [id], fault := s.fault || Linked(s, id))
    else
      if e.inExtern then Put(s, id, e)
      else Put(s, id, e.(inExtern := true)).(extern := s.extern + [id], fault := s.fault || Linked(s, id))
  }

  function SetRequest(s: State, id: Id, request: Job): State
    requires id in s.engines
  {
    Put(s, id, s.engines[id].(action := request.action, wantLen := request.wantLen,
                              cintWantData := request.cintWantData, fired := 0))
  }

  /** The handle waits: a timer when it has a time limit (or sleeps), and the events it waits for. */
  function MonitorActive(s: State, id: Id, read: bool, write: bool): State
    requires id in s.engines
  {
    var e := s.engines[id].(eventRead := read, eventWrite := write);
    if e.action == Sleep || ((read || write) && e.waitTimeout > -1) then
      Put(s, id, e.(inTree := true)).(tree := s.tree + {id}, fault := s.fault || Linked(s, id))
    else Put(s, id, e)
  }

  function MonitorClear(s: State, id: Id): State
    requires id in s.engines
  {
    Put(s, id, s.engines[id].(eventRead := false, eventWrite := false))
  }

  /** The request is over: the callback runs next. */
  function Complete(s: State, id: Id): State
    requires id in s.engines
  {
    var s1 := if s.engines[id].Persistent() then s else MonitorClear(s, id);
    Put(s1, id, s1.engines[id].(fired := s1.engines[id].fired + 1)).(phase := Callback(id, s.phase))
  }

  /** What an activity may come to, as the system answers. */
  datatype Outcome = Done | WaitFor(read: bool, write: bool) | Requeue(size: nat) | Nothing

  predicate Possible(e: Engine, stage: Stage, outcome: Outcome) {
    match e.action
    case NoAction => outcome == Nothing
    case Readable => outcome == Done || (stage == Incoming && outcome == WaitFor(true, false))
    case Writeable => if stage == Incoming then outcome == WaitFor(false, true) else outcome == Done
    case Sleep =>
      outcome == if stage == Timeout || (stage == Incoming && e.wantLen < 1) then Done else WaitFor(false, false)
    case ReadCint =>
      || outcome == Done
      || (stage != Timeout && outcome.WaitFor? && (outcome.read || outcome.write))
      || (stage != Timeout && outcome.Requeue? && outcome.size > 0 && e.CanRequeue())
    case _ => outcome == Done || (stage != Timeout && outcome.WaitFor? && (outcome.read || outcome.write))
  }

  function Activate(s: State, id: Id, outcome: Outcome): State
    requires id in s.engines
  {
    match outcome
    case Done => Complete(s, id)
    case WaitFor(read, write) => MonitorActive(s, id, read, write)
    case Requeue(size) => EnterIncoming(Put(s, id, s.engines[id].(wantLen := size)), id, true)
    case Nothing => s
  }

  /** A handle whose node goes to the temporary queue. */
  function ToTmp(e: Engine): Engine {
    e.(inIncoming := false, inExtern := false, inTmp := true)
  }

  function Moved(engines: map<Id, Engine>, ids: seq<Id>): (r: map<Id, Engine>)
    ensures r.Keys == engines.Keys
    ensures forall id :: id in engines ==> r[id] == if id in ids then ToTmp(engines[id]) else engines[id]
  {
    map id | id in engines :: if id in ids then ToTmp(engines[id]) else engines[id]
  }

  /** Both queues become the temporary queue, and the flags follow. */
  function Gather(s: State): State {
    var all := s.incoming + s.extern;
    s.(engines := Moved(s.engines, all), incoming := [], extern := [], tmp := all, phase := Drain)
  }

  function Disable(s: State, id: Id): State
    requires id in s.engines
  {
    var e := s.engines[id];
    var wrong := (e.inTree && id !in s.tree) || (e.inTmp && id !in s.tmp) ||
                 (e.inIncoming && id !in s.incoming) || (e.inExtern && id !in s.extern);
    s.(engines := s.engines[id := NEW.(wantLen := e.wantLen, cintWantData := e.cintWantData,
                                       waitTimeout := e.waitTimeout, fired := e.fired)],
       tree := if e.inTree then s.tree - {id} else s.tree,
       tmp := if e.inTmp then Remove(s.tmp, id) else s.tmp,
       incoming := if e.inIncoming then Remove(s.incoming, id) else s.incoming,
       extern := if e.inExtern then Remove(s.extern, id) else s.extern,
       fault := s.fault || wrong)
  }

  // ---- the steps ----

  datatype Move =
    | Create(id: Id)
    | SetTimeout(id: Id, timeout: int)
    | Issue(id: Id, request: Job)   // client code on the loop thread
    | Post(id: Id, request: Job)    // another thread
    | Disarm(id: Id)
    | Close(id: Id)
    | Return
    | StartDrain
    | SkipDrain
    | DrainNext(outcome: Outcome)
    | EndDrain
    | Expire(id: Id, outcome: Outcome)
    | EndTimers
    | Wait(ready: seq<Id>)
    | EventNext(outcome: Outcome)
    | EndEvents

  predicate InClient(s: State) {
    s.phase == Top || s.phase.Callback?
  }

  /** After the events of a round and before the queues are next drained. */
  predicate BeforeDrain(p: Phase) {
    p == Top || p == Events || (p.Callback? && p.resume == Events)
  }

  predicate ValidRequest(request: Job) {
    request.action != NoAction && (request.action == ReadCint ==> request.wantLen < 0)
  }

  /** These requests only ever call back when an event comes. */
  predicate OnlyCallsBack(request: Job) {
    request.action == Readable || request.action == Writeable
  }

  /** What a client has to keep to: the handle is idle. One that is still registered (a completed readable or writeable,
      or a request that is given up) is asked for more than that only before the queues are next drained, with no event
      of it still to come in this round, and not for a length with data. */
  predicate MayIssue(s: State, id: Id, request: Job) {
    && id in s.engines && !Linked(s, id)
    && (s.engines[id].Registered() && !OnlyCallsBack(request) ==>
          BeforeDrain(s.phase) && id !in s.batch && !(request.action == ReadCint && request.cintWantData))
  }

  /** What the system may report: distinct handles, each registered. */
  predicate MayReport(s: State, ready: seq<Id>) {
    NoDuplicates(ready) && forall id :: id in ready ==> id in s.engines && s.engines[id].Registered()
  }

  predicate Enabled(s: State, move: Move) {
    match move
    case Create(id) => id !in s.engines
    case SetTimeout(id, _) => InClient(s) && id in s.engines
    case Issue(id, request) => InClient(s) && ValidRequest(request) && MayIssue(s, id, request)
    case Post(id, request) => ValidRequest(request) && id in s.engines && !s.engines[id].inBase
    case Disarm(id) => InClient(s) && id in s.engines && id !in s.batch
    case Close(id) => InClient(s) && id in s.engines && id !in s.batch
    case Return => s.phase.Callback?
    case StartDrain => s.phase == Top && (s.incoming != [] || s.extern != [])
    case SkipDrain => s.phase == Top && s.incoming == [] && s.extern == []
    case DrainNext(outcome) =>
      s.phase == Drain && s.tmp != [] && s.tmp[0] in s.engines && Possible(s.engines[s.tmp[0]], Incoming, outcome)
    case EndDrain => s.phase == Drain && s.tmp == []
    case Expire(id, outcome) =>
      s.phase == Timers && id in s.tree && id in s.engines && Possible(s.engines[id], Timeout, outcome)
    case EndTimers => s.phase == Timers
    case Wait(ready) => s.phase == Poll && MayReport(s, ready)
    case EventNext(outcome) =>
      s.phase == Events && s.batch != [] && s.batch[0] in s.engines && Possible(s.engines[s.batch[0]], Epoll, outcome)
    case EndEvents => s.phase == Events && s.batch == []
  }

  /** The handle leaves the tree before it is activated. */
  function LeaveTree(s: State, id: Id): State
    requires id in s.engines
  {
    if s.engines[id].inTree then
      Put(s, id, s.engines[id].(inTree := false)).(tree := s.tree - {id}, fault := s.fault || id !in s.tree)
    else s
  }

  function LeaveTmp(s: State): State
    requires s.tmp != [] && s.tmp[0] in s.engines
  {
    Put(s, s.tmp[0], s.engines[s.tmp[0]].(inTmp := false)).(tmp := s.tmp[1..])
  }

  /** The effect of a step whose handles exist. */
  predicate Known(s: State, move: Move) {
    match move
    case SetTimeout(id, _) => id in s.engines
    case Issue(id, _) => id in s.engines
    case Post(id, _) => id in s.engines
    case Disarm(id) => id in s.engines
    case Close(id) => id in s.engines
    case Return => s.phase.Callback?
    case DrainNext(_) => s.tmp != [] && s.tmp[0] in s.engines
    case Expire(id, _) => id in s.engines
    case EventNext(_) => s.batch != [] && s.batch[0] in s.engines
    case _ => true
  }

  function Step(s: State, move: Move): State
    requires Known(s, move)
  {
    match move
    case Create(id) => Put(s, id, NEW)
    case SetTimeout(id, timeout) => Put(s, id, s.engines[id].(waitTimeout := timeout))
    case Issue(id, request) => EnterIncoming(SetRequest(s, id, request), id, true)
    case Post(id, request) => EnterIncoming(SetRequest(s, id, request), id, false)
    case Disarm(id) => Disable(s, id)
    case Close(id) => var d := Disable(s, id); d.(engines := d.engines - {id})
    case Return => s.(phase := s.phase.resume)
    case StartDrain => Gather(s)
    case SkipDrain => s.(phase := Timers)
    case DrainNext(outcome) => Activate(LeaveTmp(s), s.tmp[0], outcome)
    case EndDrain => s.(phase := Timers)
    case Expire(id, outcome) => Activate(LeaveTree(s, id), id, outcome)
    case EndTimers => s.(phase := Poll)
    case Wait(ready) => s.(batch := ready, phase := Events)
    case EventNext(outcome) => Activate(LeaveTree(s.(batch := s.batch[1..]), s.batch[0]), s.batch[0], outcome)
    case EndEvents => s.(phase := Top)
  }
}
