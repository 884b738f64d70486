/**
The stream lifecycle across services: API handlers (internal/api/handlers/streams.go), the control
subject, the ingestor's command callback (internal/ingest/manager.go, cmd/ingestor/main.go) and one
ingestion goroutine per started stream, interleaved in every possible way.

Each step is one database access, one publish, one critical section or one metric update.  Commands
reach a single ingestor through its one subscription callback, one at a time; the ingestor does not
crash and its status writes succeed.  A handler's database access may fail and a published command may
be lost.
*/
module Lifecycle {

  type Id = string

  datatype Status = Stopped | Starting | Running | Failed

  datatype Command = StartCommand(id: Id, youtube: bool) | StopCommand(id: Id) | UnknownCommand

  /** A request being served, named by its next access. */
  datatype Handler =
    | StartRead(id: Id, youtube: bool)
    | StartWrite(id: Id, youtube: bool)
    | StartPublish(id: Id, youtube: bool)
    | StartUndo(id: Id)
    | StopRead(id: Id)
    | StopPublish(id: Id)
    | StopWrite(id: Id)
    | DeleteRead(id: Id)
    | DeletePublish(id: Id)
    | DeleteRow(id: Id)

  /** The subscription callback, named by its next access. */
  datatype Callback =
    | Idle
    | Checking(id: Id, youtube: bool)
    | Resolving(id: Id, youtube: bool)
    | MarkingError(id: Id)
    | Inserting(id: Id, youtube: bool)
    | Counting(id: Id, g: nat)
    | MarkingRunning(id: Id, g: nat)
    | Spawning(id: Id, g: nat)
    | LookingUp(id: Id)
    | Cancelling(g: nat)

  const MAX_RETRIES := 5

  datatype Phase =
    | NotSpawned
    | Extracting
    | CheckingOutcome(failed: bool)
    | Waiting
    | ReResolving
    | Writing(status: Status)
    | Leaving
    | Uncounting
    | Finished

  /** An ingestion goroutine with its counters. */
  datatype Worker = Worker(
    id: Id,
    youtube: bool,
    phase: Phase,
    attempt: nat,
    extractions: nat,
    waited: nat,
    cancelled: bool,
    writes: seq<Status>)

  datatype System = System(
    db: map<Id, Status>,
    queue: seq<Command>,
    handlers: map<nat, Handler>,
    callback: Callback,
    streams: map<Id, nat>,
    workers: map<nat, Worker>,
    gauge: int,
    shutdown: bool,
    refused: set<Id>,
    lost: set<Id>)

  /** UPDATE ... WHERE id = $3 on a row that may be gone. */
  function Write(db: map<Id, Status>, id: Id, st: Status): map<Id, Status> {
    if id in db then db[id := st] else db
  }

  /** What the environment decides for one step. */
  datatype Choice = Ok | Lost | Fail

  // ---- API handlers ----

  /** What a handler's step leaves to be remembered about its stream: that it has just been marked
      starting, or that its command went astray. */
  datatype Mark = NoMark | MarkedStarting | CommandLost

  /** One step of a handler: its next access, if any, the rows after it and the commands it published. */
  datatype Move = Move(next: seq<Handler>, db: map<Id, Status>, sent: seq<Command>, mark: Mark)

  function Done(db: map<Id, Status>): Move { Move([], db, [], NoMark) }

  function Next(pc: Handler, db: map<Id, Status>): Move { Move([pc], db, [], NoMark) }

  function HandlerMove(pc: Handler, db: map<Id, Status>, c: Choice): Move {
    match pc
    case StartRead(id, yt) =>
      if c.Fail? || id !in db || db[id] == Running then Done(db) else Next(StartWrite(id, yt), db)
    case StartWrite(id, yt) =>
      if c.Fail? then Done(db) else Move([StartPublish(id, yt)], Write(db, id, Starting), [], MarkedStarting)
    case StartPublish(id, yt) =>
      (match c
       case Ok => Move([], db, [StartCommand(id, yt)], NoMark)
       case Lost => Move([], db, [], CommandLost)
       case Fail => Next(StartUndo(id), db))
    case StartUndo(id) =>
      if c.Fail? then Move([], db, [], CommandLost) else Done(Write(db, id, Failed))
    case StopRead(id) =>
      if c.Fail? || id !in db then Done(db) else Next(StopPublish(id), db)
    case StopPublish(id) =>
      Move([StopWrite(id)], db, if c.Ok? then [StopCommand(id)] else [], NoMark)
    case StopWrite(id) =>
      if c.Fail? then Done(db) else Done(Write(db, id, Stopped))
    case DeleteRead(id) =>
      if c.Fail? then Done(db)
      else if id in db && db[id] == Running then Next(DeletePublish(id), db)
      else Next(DeleteRow(id), db)
    case DeletePublish(id) =>
      Move([DeleteRow(id)], db, if c.Ok? then [StopCommand(id)] else [], NoMark)
    case DeleteRow(id) =>
      if c.Fail? then Done(db) else Done(db - {id})
  }

  function HandlerStep(s: System, h: nat, c: Choice): System
    requires h in s.handlers
  {
    var id := s.handlers[h].id;
    var m := HandlerMove(s.handlers[h], s.db, c);
    s.(db := m.db,
       queue := s.queue + m.sent,
       handlers := if m.next == [] then s.handlers - {h} else s.handlers[h := m.next[0]],
       refused := if m.mark == MarkedStarting then s.refused - {id} else s.refused,
       lost := if m.mark == MarkedStarting then s.lost - {id} else if m.mark == CommandLost then s.lost + {id} else s.lost)
  }

  // ---- the command callback ----

  function Deliver(s: System): System
    requires s.callback.Idle? && s.queue != []
  {
    var s' := s.(queue := s.queue[1..]);
    match s.queue[0]
    case StartCommand(id, yt) => s'.(callback := Checking(id, yt))
    case StopCommand(id) => s'.(callback := LookingUp(id))
    case UnknownCommand => s'
  }

  /** Where the callback goes next; `newG` is the identity of the goroutine an insertion creates. */
  function NextCallback(cb: Callback, streams: map<Id, nat>, c: Choice, newG: nat): Callback {
    match cb
    case Idle => Idle
    case Checking(id, yt) => if id in streams then Idle else if yt then Resolving(id, yt) else Inserting(id, yt)
    case Resolving(id, yt) => if c.Ok? then Inserting(id, yt) else MarkingError(id)
    case MarkingError(_) => Idle
    case Inserting(id, _) => Counting(id, newG)
    case Counting(id, g) => MarkingRunning(id, g)
    case MarkingRunning(id, g) => Spawning(id, g)
    case Spawning(_, _) => Idle
    case LookingUp(id) => if id in streams then Cancelling(streams[id]) else Idle
    case Cancelling(_) => Idle
  }

  function CallbackWorkers(cb: Callback, workers: map<nat, Worker>, newG: nat): map<nat, Worker> {
    match cb
    case Inserting(id, yt) => workers[newG := Worker(id, yt, NotSpawned, 0, 0, 0, false, [])]
    case Spawning(_, g) => if g in workers then workers[g := workers[g].(phase := Extracting)] else workers
    case Cancelling(g) => if g in workers then workers[g := workers[g].(cancelled := true)] else workers
    case _ => workers
  }

  /** The stream's goroutine has written its terminal status and not deleted its map entry yet. */
  predicate JustEnded(s: System, id: Id) {
    id in s.streams && s.streams[id] in s.workers && s.workers[s.streams[id]].phase.Leaving?
  }

  /** `refused` remembers the streams whose start came too late for one goroutine and too early for the
      next. */
  function CallbackStep(s: System, c: Choice, newG: nat): System {
    var cb := s.callback;
    s.(callback := NextCallback(cb, s.streams, c, newG),
       workers := CallbackWorkers(cb, s.workers, newG),
       streams := if cb.Inserting? then s.streams[cb.id := newG] else s.streams,
       gauge := if cb.Counting? then s.gauge + 1 else s.gauge,
       refused := if cb.Checking? && JustEnded(s, cb.id) then s.refused + {cb.id} else s.refused,
       db := if cb.MarkingError? then Write(s.db, cb.id, Failed)
             else if cb.MarkingRunning? then Write(s.db, cb.id, Running)
             else s.db)
  }

  // ---- the ingestion goroutine ----

  function Pow2(n: nat): nat {
    if n == 0 then 1 else 2 * Pow2(n - 1)
  }

  /** A failed attempt: back off, or give up after the last. */
  function Retry(w: Worker): Worker {
    if w.attempt < MAX_RETRIES then w.(phase := Waiting, attempt := w.attempt + 1) else w.(phase := Writing(Failed))
  }

  /** The steps that touch only the goroutine itself.  `partial` is the time already waited when a
      cancellation cuts the back-off short. */
  function LocalStep(w: Worker, c: Choice, cancelled: bool, partial: nat): Worker {
    match w.phase
    case Extracting => w.(phase := CheckingOutcome(!c.Ok?), extractions := w.extractions + 1)
    case CheckingOutcome(failed) =>
      if !failed || cancelled then w.(phase := Writing(Stopped)) else Retry(w)
    case Waiting =>
      if cancelled && !c.Ok? then
        w.(phase := Writing(Stopped), waited := w.waited + if partial < Pow2(w.attempt) then partial else Pow2(w.attempt))
      else w.(phase := if w.youtube then ReResolving else Extracting, waited := w.waited + Pow2(w.attempt))
    case ReResolving => if c.Ok? then w.(phase := Extracting) else Retry(w)
    case _ => w
  }

  function IsCancelled(s: System, w: Worker): bool {
    w.cancelled || s.shutdown
  }

  function WorkerMove(w: Worker, c: Choice, cancelled: bool, partial: nat): Worker {
    match w.phase
    case NotSpawned => w
    case Writing(st) => w.(phase := Leaving, writes := w.writes + [st])
    case Leaving => w.(phase := Uncounting)
    case Uncounting => w.(phase := Finished)
    case Finished => w
    case _ => LocalStep(w, c, cancelled, partial)
  }

  function WorkerStep(s: System, g: nat, c: Choice, partial: nat): System
    requires g in s.workers
  {
    var w := s.workers[g];
    s.(workers := s.workers[g := WorkerMove(w, c, IsCancelled(s, w), partial)],
       db := if w.phase.Writing? then Write(s.db, w.id, w.phase.status) else s.db,
       streams := if w.phase.Leaving? then s.streams - {w.id} else s.streams,
       gauge := if w.phase.Uncounting? then s.gauge - 1 else s.gauge)
  }

  // ---- runs ----

  datatype Action =
    | CreateStream(id: Id)
    | Arrive(h: nat, pc: Handler)
    | HandlerMoves(h: nat, c: Choice)
    | PublishUnknown
    | DeliverCommand
    | CallbackMoves(c: Choice, newG: nat)
    | WorkerMoves(g: nat, c: Choice, partial: nat)
    | Shutdown

  predicate Enabled(s: System, a: Action) {
    match a
    case CreateStream(id) => id !in s.db
    case Arrive(h, pc) => h !in s.handlers && (pc.StartRead? || pc.StopRead? || pc.DeleteRead?)
    case HandlerMoves(h, _) => h in s.handlers
    case PublishUnknown => true
    case DeliverCommand => s.callback.Idle? && s.queue != []
    case CallbackMoves(_, newG) => newG !in s.workers
    case WorkerMoves(g, _, _) => g in s.workers
    case Shutdown => true
  }

  function Act(s: System, a: Action): System
    requires Enabled(s, a)
  {
    match a
    case CreateStream(id) => s.(db := s.db[id := Stopped])
    case Arrive(h, pc) => s.(handlers := s.handlers[h := pc])
    case HandlerMoves(h, c) => HandlerStep(s, h, c)
    case PublishUnknown => s.(queue := s.queue + [UnknownCommand])
    case DeliverCommand => Deliver(s)
    case CallbackMoves(c, newG) => CallbackStep(s, c, newG)
    case WorkerMoves(g, c, partial) => WorkerStep(s, g, c, partial)
    case Shutdown => s.(shutdown := true)
  }

  /** A fresh deployment: no stream is marked running or starting. */
  ghost predicate Initial(s: System) {
    && (forall id :: id in s.db ==> s.db[id] == Stopped || s.db[id] == Failed)
    && s == System(s.db, [], map[], Idle, map[], map[], 0, false, {}, {})
  }

  ghost predicate Run(ss: seq<System>, acts: seq<Action>) {
    && |ss| == |acts| + 1
    && Initial(ss[0])
    && forall i :: 0 <= i < |acts| ==> Enabled(ss[i], acts[i]) && ss[i + 1] == Act(ss[i], acts[i])
  }

  // ---- the registry ----

  /** The goroutine has not deleted its map entry yet. */
  predicate Registered(p: Phase) {
    !p.Uncounting? && !p.Finished?
  }

  /** ... and has not written its terminal status yet. */
  predicate Live(p: Phase) {
    Registered(p) && !p.Leaving?
  }

  predicate Starts(c: Callback, id: Id) {
    (c.Resolving? || c.MarkingError? || c.Inserting?) && c.id == id
  }

  predicate Holds(c: Callback, g: nat) {
    (c.Counting? || c.MarkingRunning? || c.Spawning?) && c.g == g
  }

  /** Map entries and registered goroutines are the same thing seen from two sides; the callback is
      about to insert only what is not there, and it alone holds a goroutine not spawned yet. */
  ghost predicate Registry(streams: map<Id, nat>, workers: map<nat, Worker>, callback: Callback) {
    && (forall id :: id in streams ==>
          streams[id] in workers && workers[streams[id]].id == id && Registered(workers[streams[id]].phase))
    && (forall g :: g in workers && Registered(workers[g].phase) ==> workers[g].id in streams && streams[workers[g].id] == g)
    && (forall id :: Starts(callback, id) ==> id !in streams)
    && (forall g :: Holds(callback, g) ==> g in workers && workers[g].phase.NotSpawned? && workers[g].id == callback.id)
    && (forall g :: g in workers && workers[g].phase.NotSpawned? ==> Holds(callback, g))
    && (callback.Cancelling? ==> callback.g in workers)
  }

  /** Running means registered, with the terminal status still to come. */
  ghost predicate RunningIsLive(db: map<Id, Status>, streams: map<Id, nat>, workers: map<nat, Worker>) {
    forall id :: id in db && db[id] == Running ==>
      id in streams && streams[id] in workers && Live(workers[streams[id]].phase)
  }

  /** Registry and statuses agree. */
  ghost predicate InStep(s: System) {
    Registry(s.streams, s.workers, s.callback) && RunningIsLive(s.db, s.streams, s.workers)
  }

  /** A goroutine moves on without entering or leaving the registry. */
  lemma WorkerMovesOn(streams: map<Id, nat>, workers: map<nat, Worker>, callback: Callback, g: nat, w: Worker)
    requires Registry(streams, workers, callback) && g in workers
    requires w.id == workers[g].id && Registered(w.phase) == Registered(workers[g].phase)
    requires w.phase.NotSpawned? == workers[g].phase.NotSpawned?
    ensures Registry(streams, workers[g := w], callback)
  {
  }

  lemma WorkerLeaves(streams: map<Id, nat>, workers: map<nat, Worker>, callback: Callback, g: nat, w: Worker)
    requires Registry(streams, workers, callback) && g in workers && workers[g].phase.Leaving?
    requires w.id == workers[g].id && w.phase.Uncounting?
    ensures Registry(streams - {w.id}, workers[g := w], callback)
  {
  }

  lemma WorkerEnters(streams: map<Id, nat>, workers: map<nat, Worker>, id: Id, yt: bool, g: nat, w: Worker)
    requires Registry(streams, workers, Inserting(id, yt)) && g !in workers
    requires w.id == id && w.phase.NotSpawned?
    ensures Registry(streams[id := g], workers[g := w], Counting(id, g))
  {
    assert Starts(Inserting(id, yt), id);
  }

  lemma WorkerSpawns(streams: map<Id, nat>, workers: map<nat, Worker>, id: Id, g: nat, w: Worker)
    requires Registry(streams, workers, Spawning(id, g)) && g in workers
    requires w.id == workers[g].id && w.phase.Extracting?
    ensures Registry(streams, workers[g := w], Idle)
  {
    assert Holds(Spawning(id, g), g);
  }

  /** The callback moves without touching the registry. */
  lemma CallbackMovesOn(streams: map<Id, nat>, workers: map<nat, Worker>, c: Callback, d: Callback)
    requires Registry(streams, workers, c)
    requires forall g :: Holds(d, g) <==> Holds(c, g)
    requires forall g :: Holds(d, g) ==> d.id == c.id
    requires forall id :: Starts(d, id) ==> id !in streams
    requires d.Cancelling? ==> d.g in workers
    ensures Registry(streams, workers, d)
  {
  }

  /** Why commands must come one at a time: a second callback that passed its check before the first
      inserted would put two goroutines of one stream behind a single map entry. */
  lemma SecondInsertBreaksRegistry(streams: map<Id, nat>, workers: map<nat, Worker>, cb: Callback, id: Id,
                                   yt: bool, g: nat, cb': Callback)
    requires Registry(streams, workers, cb) && id in streams && g !in workers
    ensures var w := Worker(id, yt, NotSpawned, 0, 0, 0, false, []);
      !Registry(streams[id := g], workers[g := w], cb')
  {
    var first := streams[id];
    assert first in workers && workers[first].id == id && Registered(workers[first].phase);
    var workers' := workers[g := Worker(id, yt, NotSpawned, 0, 0, 0, false, [])];
    assert first in workers' && workers'[first] == workers[first];
  }

  /** No handler writes "running". */
  lemma HandlerNeverRuns(pc: Handler, db: map<Id, Status>, c: Choice)
    ensures var db' := HandlerMove(pc, db, c).db;
      forall id :: id in db' && db'[id] == Running ==> id in db && db[id] == Running
  {
  }

  lemma HandlerKeepsRegistry(s: System, h: nat, c: Choice)
    requires h in s.handlers && InStep(s)
    ensures InStep(HandlerStep(s, h, c))
  {
    HandlerNeverRuns(s.handlers[h], s.db, c);
    hide HandlerMove, Registry;
  }

  lemma CallbackKeepsRegistry(s: System, c: Choice, newG: nat)
    requires newG !in s.workers && Registry(s.streams, s.workers, s.callback)
    ensures var s' := CallbackStep(s, c, newG); Registry(s'.streams, s'.workers, s'.callback)
  {
    hide Registry, CallbackStep;
    match s.callback
    case Inserting(_, _) => InsertKeepsRegistry(s, c, newG);
    case Spawning(_, _) => SpawnKeepsRegistry(s, c, newG);
    case Cancelling(_) => CancelKeepsRegistry(s, c, newG);
    case _ => OthersKeepRegistry(s, c, newG);
  }

  lemma InsertKeepsRegistry(s: System, c: Choice, newG: nat)
    requires newG !in s.workers && Registry(s.streams, s.workers, s.callback) && s.callback.Inserting?
    ensures var s' := CallbackStep(s, c, newG); Registry(s'.streams, s'.workers, s'.callback)
  {
    hide Registry;
    WorkerEnters(s.streams, s.workers, s.callback.id, s.callback.youtube, newG, CallbackStep(s, c, newG).workers[newG]);
  }

  lemma SpawnKeepsRegistry(s: System, c: Choice, newG: nat)
    requires Registry(s.streams, s.workers, s.callback) && s.callback.Spawning?
    ensures var s' := CallbackStep(s, c, newG); Registry(s'.streams, s'.workers, s'.callback)
  {
    hide Registry;
    CallbackHolds(s, s.callback.g);
    WorkerSpawns(s.streams, s.workers, s.callback.id, s.callback.g, CallbackStep(s, c, newG).workers[s.callback.g]);
  }

  lemma CancelKeepsRegistry(s: System, c: Choice, newG: nat)
    requires Registry(s.streams, s.workers, s.callback) && s.callback.Cancelling?
    ensures var s' := CallbackStep(s, c, newG); Registry(s'.streams, s'.workers, s'.callback)
  {
    hide Registry;
    var s' := CallbackStep(s, c, newG);
    CancellingKnown(s);
    WorkerMovesOn(s.streams, s.workers, s.callback, s.callback.g, s'.workers[s.callback.g]);
    CallbackMovesOn(s.streams, s'.workers, s.callback, Idle);
  }

  lemma OthersKeepRegistry(s: System, c: Choice, newG: nat)
    requires Registry(s.streams, s.workers, s.callback)
    requires !s.callback.Inserting? && !s.callback.Spawning? && !s.callback.Cancelling?
    ensures var s' := CallbackStep(s, c, newG); Registry(s'.streams, s'.workers, s'.callback)
  {
    hide Registry, Write;
    var s' := CallbackStep(s, c, newG);
    assert s'.streams == s.streams && s'.workers == s.workers;
    StreamsKnown(s);
    StartsFresh(s);
    CallbackMovesOn(s.streams, s.workers, s.callback, s'.callback);
  }

  lemma CallbackKeepsRunning(s: System, c: Choice, newG: nat)
    requires newG !in s.workers && InStep(s)
    ensures var s' := CallbackStep(s, c, newG); RunningIsLive(s'.db, s'.streams, s'.workers)
  {
    hide Registry, NextCallback;
    var s' := CallbackStep(s, c, newG);
    StreamsKnown(s);
    if s.callback.Spawning? || s.callback.MarkingRunning? {
      CallbackHolds(s, s.callback.g);
    }
    forall id | id in s'.db && s'.db[id] == Running
      ensures id in s'.streams && s'.streams[id] in s'.workers && Live(s'.workers[s'.streams[id]].phase)
    {
    }
  }

  lemma CallbackHolds(s: System, g: nat)
    requires Registry(s.streams, s.workers, s.callback) && Holds(s.callback, g)
    ensures g in s.workers && s.workers[g].phase.NotSpawned? && s.workers[g].id == s.callback.id
    ensures s.callback.id in s.streams && s.streams[s.callback.id] == g
  {
  }

  lemma CancellingKnown(s: System)
    requires Registry(s.streams, s.workers, s.callback) && s.callback.Cancelling?
    ensures s.callback.g in s.workers
  {
  }

  lemma StreamsKnown(s: System)
    requires Registry(s.streams, s.workers, s.callback)
    ensures forall id :: id in s.streams ==> s.streams[id] in s.workers && s.workers[s.streams[id]].id == id
  {
  }

  lemma StartsFresh(s: System)
    requires Registry(s.streams, s.workers, s.callback)
    ensures forall id :: Starts(s.callback, id) ==> id !in s.streams
  {
  }

  lemma RegisteredKnown(s: System, g: nat)
    requires Registry(s.streams, s.workers, s.callback) && g in s.workers && Registered(s.workers[g].phase)
    ensures s.workers[g].id in s.streams && s.streams[s.workers[g].id] == g
  {
  }

  // ---- one goroutine's life ----

  lemma Pow2Facts(n: nat)
    requires n <= MAX_RETRIES + 1
    ensures 1 <= Pow2(n) <= 64 && (n == MAX_RETRIES + 1 ==> Pow2(n) == 64)
  {
    assert Pow2(3) == 8 && Pow2(6) == 8 * Pow2(3);
    assert Pow2(4) == 2 * Pow2(3) && Pow2(5) == 4 * Pow2(3);
  }

  /** Its one terminal status, once decided. */
  predicate Verdict(w: Worker, st: Status) {
    && (st == Stopped || st == Failed)
    && 1 <= w.extractions <= w.attempt + 1
    && w.waited <= Pow2(w.attempt + 1) - 2
    && (st == Failed ==> w.attempt == MAX_RETRIES && w.waited == Pow2(w.attempt + 1) - 2
                         && (!w.youtube ==> w.extractions == w.attempt + 1))
  }

  /** Attempts made and time waited, phase by phase: after r retries the back-off comes to 2^(r+1) - 2. */
  predicate Accounted(w: Worker) {
    && w.attempt <= MAX_RETRIES
    && (w.attempt > 0 ==> w.extractions > 0)
    && match w.phase
       case NotSpawned => w.attempt == w.extractions == w.waited == 0 && w.writes == []
       case Extracting => w.extractions <= w.attempt && (!w.youtube ==> w.extractions == w.attempt)
         && w.waited == Pow2(w.attempt + 1) - 2 && w.writes == []
       case CheckingOutcome(_) => 1 <= w.extractions <= w.attempt + 1 && (!w.youtube ==> w.extractions == w.attempt + 1)
         && w.waited == Pow2(w.attempt + 1) - 2 && w.writes == []
       case Waiting => w.attempt > 0 && w.extractions <= w.attempt && (!w.youtube ==> w.extractions == w.attempt)
         && w.waited == Pow2(w.attempt) - 2 && w.writes == []
       case ReResolving => w.youtube && w.attempt > 0 && w.extractions <= w.attempt
         && w.waited == Pow2(w.attempt + 1) - 2 && w.writes == []
       case Writing(st) => Verdict(w, st) && w.writes == []
       case _ => |w.writes| == 1 && Verdict(w, w.writes[0])
  }

  lemma RetryAccounted(w: Worker)
    requires Accounted(w) && ((w.phase.CheckingOutcome? && w.extractions > 0) || w.phase.ReResolving?)
    ensures Accounted(Retry(w))
  {
    hide Pow2;
  }

  lemma LocalStepAccounted(w: Worker, c: Choice, cancelled: bool, partial: nat)
    requires Accounted(w) && !w.phase.NotSpawned?
    ensures Accounted(LocalStep(w, c, cancelled, partial))
  {
    assert Pow2(w.attempt + 1) == 2 * Pow2(w.attempt) && Pow2(w.attempt) > 0;
    hide Pow2;
    if w.phase.CheckingOutcome? || w.phase.ReResolving? {
      RetryAccounted(w);
    }
    hide Retry;
  }

  ghost predicate AllAccounted(s: System) {
    forall g :: g in s.workers ==> Accounted(s.workers[g])
  }

  lemma WorkerMoveAccounted(w: Worker, c: Choice, cancelled: bool, partial: nat)
    requires Accounted(w)
    ensures Accounted(WorkerMove(w, c, cancelled, partial))
  {
    if !w.phase.NotSpawned? {
      LocalStepAccounted(w, c, cancelled, partial);
    }
    hide LocalStep, Pow2;
  }

  lemma WorkerAccounted(s: System, g: nat, c: Choice, partial: nat)
    requires g in s.workers && AllAccounted(s)
    ensures AllAccounted(WorkerStep(s, g, c, partial))
  {
    WorkerMoveAccounted(s.workers[g], c, IsCancelled(s, s.workers[g]), partial);
    hide Write, WorkerMove, Accounted;
  }

  lemma NewWorkerAccounted(id: Id, yt: bool)
    ensures Accounted(Worker(id, yt, NotSpawned, 0, 0, 0, false, []))
  {
  }

  lemma SpawnedAccounted(w: Worker)
    requires Accounted(w) && w.phase.NotSpawned?
    ensures Accounted(w.(phase := Extracting))
  {
    assert Pow2(1) == 2;
  }

  lemma CancelledAccounted(w: Worker)
    requires Accounted(w)
    ensures Accounted(w.(cancelled := true))
  {
    hide Pow2;
  }

  lemma CallbackAccounted(s: System, c: Choice, newG: nat)
    requires newG !in s.workers && AllAccounted(s) && InStep(s)
    ensures AllAccounted(CallbackStep(s, c, newG))
  {
    hide Write, NextCallback, RunningIsLive, Registry, Accounted;
    match s.callback
    case Inserting(id, yt) => NewWorkerAccounted(id, yt);
    case Spawning(_, g) =>
      CallbackHolds(s, g);
      SpawnedAccounted(s.workers[g]);
    case Cancelling(g) =>
      CancellingKnown(s);
      CancelledAccounted(s.workers[g]);
    case _ =>
  }

  // ---- the gauge ----

  ghost function BeingUncounted(workers: map<nat, Worker>): set<nat> {
    set g | g in workers && workers[g].phase.Uncounting?
  }

  /** The gauge counts map entries, but for one insertion not counted yet and deletions not yet
      uncounted. */
  ghost predicate GaugeCounts(s: System) {
    s.gauge == |s.streams| - (if s.callback.Counting? then 1 else 0) + |BeingUncounted(s.workers)|
  }

  lemma MapPlus(m: map<Id, nat>, id: Id, g: nat)
    ensures |m[id := g]| == if id in m then |m| else |m| + 1
  {
    assert m[id := g].Keys == m.Keys + {id};
    assert |m.Keys| == |m| && |m[id := g].Keys| == |m[id := g]|;
  }

  lemma MapMinus(m: map<Id, nat>, id: Id)
    ensures |m - {id}| == if id in m then |m| - 1 else |m|
  {
    assert (m - {id}).Keys == m.Keys - {id};
    assert |m.Keys| == |m| && |(m - {id}).Keys| == |m - {id}|;
  }

  lemma WorkerMoveStays(w: Worker, c: Choice, cancelled: bool, partial: nat)
    ensures var w' := WorkerMove(w, c, cancelled, partial);
      && w'.id == w.id && w'.youtube == w.youtube && w'.cancelled == w.cancelled
      && (w'.phase.Uncounting? <==> w.phase.Leaving?) && (w'.phase.NotSpawned? <==> w.phase.NotSpawned?)
      && (Registered(w'.phase) <==> Registered(w.phase) && !w.phase.Leaving?)
      && (w'.phase.Leaving? <==> w.phase.Writing?)
  {
    LocalStepStays(w, c, cancelled, partial);
    hide LocalStep;
  }

  lemma LocalStepStays(w: Worker, c: Choice, cancelled: bool, partial: nat)
    ensures var w' := LocalStep(w, c, cancelled, partial);
      && w'.id == w.id && w'.youtube == w.youtube && w'.cancelled == w.cancelled
      && (w'.phase == w.phase || (w'.phase.CheckingOutcome? || w'.phase.Writing? || w'.phase.Waiting?
                                  || w'.phase.ReResolving? || w'.phase.Extracting?))
  {
    hide Pow2;
  }

  lemma WorkerKeepsRegistry(s: System, g: nat, c: Choice, partial: nat)
    requires g in s.workers && InStep(s)
    requires s.workers[g].phase != Writing(Running)
    ensures InStep(WorkerStep(s, g, c, partial))
  {
    hide Registry;
    var s' := WorkerStep(s, g, c, partial);
    WorkerMoveStays(s.workers[g], c, IsCancelled(s, s.workers[g]), partial);
    hide WorkerMove;
    StreamsKnown(s);
    if Registered(s.workers[g].phase) {
      RegisteredKnown(s, g);
    }
    if s.workers[g].phase.Leaving? {
      WorkerLeaves(s.streams, s.workers, s.callback, g, s'.workers[g]);
    } else {
      WorkerMovesOn(s.streams, s.workers, s.callback, g, s'.workers[g]);
    }
  }

  lemma UncountedAfter(workers: map<nat, Worker>, g: nat, w: Worker)
    requires g in workers
    ensures |BeingUncounted(workers[g := w])|
         == |BeingUncounted(workers)| + (if w.phase.Uncounting? then 1 else 0)
            - (if workers[g].phase.Uncounting? then 1 else 0)
  {
    var before, after := BeingUncounted(workers), BeingUncounted(workers[g := w]);
    assert after - {g} == before - {g};
    assert g in before <==> workers[g].phase.Uncounting?;
    assert g in after <==> w.phase.Uncounting?;
    hide BeingUncounted;
    SizeWithout(before, g);
    SizeWithout(after, g);
  }

  lemma SizeWithout(s: set<nat>, g: nat)
    ensures |s| == |s - {g}| + if g in s then 1 else 0
  {
    if g in s {
      assert s == (s - {g}) + {g};
    } else {
      assert s - {g} == s;
    }
  }

  lemma WorkerGauge(s: System, g: nat, c: Choice, partial: nat)
    requires g in s.workers && InStep(s) && GaugeCounts(s)
    ensures GaugeCounts(WorkerStep(s, g, c, partial))
  {
    hide Registry, RunningIsLive, Write, BeingUncounted;
    var w := s.workers[g];
    var w' := WorkerMove(w, c, IsCancelled(s, w), partial);
    WorkerMoveStays(w, c, IsCancelled(s, w), partial);
    hide WorkerMove;
    UncountedAfter(s.workers, g, w');
    MapMinus(s.streams, w.id);
    if w.phase.Leaving? {
      RegisteredKnown(s, g);
    }
  }

  lemma CallbackGauge(s: System, c: Choice, newG: nat)
    requires newG !in s.workers && InStep(s) && GaugeCounts(s)
    ensures GaugeCounts(CallbackStep(s, c, newG))
  {
    hide RunningIsLive, Write;
    var s' := CallbackStep(s, c, newG);
    if s.callback.Inserting? {
      StartsFresh(s);
      assert Starts(s.callback, s.callback.id);
      MapPlus(s.streams, s.callback.id, newG);
    }
    if s.callback.Spawning? {
      CallbackHolds(s, s.callback.g);
    }
    hide Registry;
    assert BeingUncounted(s'.workers) == BeingUncounted(s.workers);
  }

  // ---- starting ----

  predicate InHand(cb: Callback, id: Id) {
    !cb.Idle? && !cb.LookingUp? && !cb.Cancelling? && !cb.Spawning? && cb.id == id
  }

  predicate Publishes(pc: Handler, id: Id) {
    (pc.StartPublish? || pc.StartUndo?) && pc.id == id
  }

  /** The stream's goroutine has its terminal status still to write. */
  predicate Underway(s: System, id: Id) {
    id in s.streams && s.streams[id] in s.workers && Live(s.workers[s.streams[id]].phase)
  }

  /** Someone still answers for a stream marked starting, or its command was lost since, or refused when
      its goroutine had just ended. */
  ghost predicate Answered(s: System, id: Id) {
    || (exists h :: h in s.handlers && Publishes(s.handlers[h], id))
    || (exists k :: 0 <= k < |s.queue| && s.queue[k].StartCommand? && s.queue[k].id == id)
    || InHand(s.callback, id)
    || Underway(s, id)
    || id in s.refused
    || id in s.lost
  }

  ghost predicate StartingIsAnswered(s: System) {
    forall id :: id in s.db && s.db[id] == Starting ==> Answered(s, id)
  }

  lemma MoveAnswers(pc: Handler, db: map<Id, Status>, c: Choice, id: Id)
    requires var m := HandlerMove(pc, db, c); id in m.db && m.db[id] == Starting
    ensures var m := HandlerMove(pc, db, c);
      || (m.next != [] && Publishes(m.next[0], id))
      || (m.sent != [] && m.sent[0].StartCommand? && m.sent[0].id == id)
      || (m.mark == CommandLost && pc.id == id)
      || (id in db && db[id] == Starting && !Publishes(pc, id))
    ensures var m := HandlerMove(pc, db, c); m.mark == MarkedStarting ==> m.next != [] && Publishes(m.next[0], pc.id)
  {
  }

  lemma HandlerAnswers(s: System, h: nat, c: Choice)
    requires h in s.handlers && StartingIsAnswered(s)
    ensures StartingIsAnswered(HandlerStep(s, h, c))
  {
    var s', m := HandlerStep(s, h, c), HandlerMove(s.handlers[h], s.db, c);
    forall id | id in s'.db && s'.db[id] == Starting ensures Answered(s', id) {
      MoveAnswers(s.handlers[h], s.db, c, id);
      hide HandlerMove;
      if m.next != [] && Publishes(m.next[0], id) {
        assert h in s'.handlers && Publishes(s'.handlers[h], id);
      } else if m.sent != [] && m.sent[0].StartCommand? && m.sent[0].id == id {
        assert s'.queue[|s.queue|] == m.sent[0];
      } else if id !in s'.lost && id !in s'.refused && !InHand(s.callback, id) && !Underway(s, id) {
        StillAnswered(s, s', h, id);
      }
    }
  }

  lemma StillAnswered(s: System, s': System, h: nat, id: Id)
    requires Answered(s, id) && h in s.handlers && !Publishes(s.handlers[h], id)
    requires s.queue <= s'.queue
    requires forall k :: k in s.handlers && k != h ==> k in s'.handlers && s'.handlers[k] == s.handlers[k]
    requires id !in s.refused && id !in s.lost && !InHand(s.callback, id) && !Underway(s, id)
    ensures Answered(s', id)
  {
    if exists k :: k in s.handlers && Publishes(s.handlers[k], id) {
      var k :| k in s.handlers && Publishes(s.handlers[k], id);
      assert k in s'.handlers && Publishes(s'.handlers[k], id);
    } else {
      var k :| 0 <= k < |s.queue| && s.queue[k].StartCommand? && s.queue[k].id == id;
      assert s'.queue[k] == s.queue[k];
    }
  }

  lemma DeliverAnswers(s: System)
    requires s.callback.Idle? && s.queue != [] && StartingIsAnswered(s)
    ensures StartingIsAnswered(Deliver(s))
  {
    var s' := Deliver(s);
    forall id | id in s'.db && s'.db[id] == Starting ensures Answered(s', id) {
      assert Answered(s, id);
      if exists k :: 0 <= k < |s.queue| && s.queue[k].StartCommand? && s.queue[k].id == id {
        var k :| 0 <= k < |s.queue| && s.queue[k].StartCommand? && s.queue[k].id == id;
        if k > 0 {
          assert s'.queue[k - 1] == s.queue[k];
        }
      }
    }
  }

  lemma CallbackAnswers(s: System, c: Choice, newG: nat)
    requires newG !in s.workers && StartingIsAnswered(s) && InStep(s)
    ensures StartingIsAnswered(CallbackStep(s, c, newG))
  {
    var s' := CallbackStep(s, c, newG);
    StreamsKnown(s);
    hide RunningIsLive;
    forall id | id in s'.db && s'.db[id] == Starting ensures Answered(s', id) {
      assert Answered(s, id);
      if Underway(s, id) {
        StillUnderway(s, c, newG, id);
      } else if s.callback.Checking? && s.callback.id == id && id in s.streams {
        NotHeld(s, id);
      }
    }
  }

  lemma StillUnderway(s: System, c: Choice, newG: nat, id: Id)
    requires newG !in s.workers && InStep(s) && Underway(s, id)
    ensures Underway(CallbackStep(s, c, newG), id)
  {
    hide RunningIsLive, NextCallback, Write;
    StartsFresh(s);
    StreamsKnown(s);
    hide Registry;
    assert s.callback.Inserting? ==> Starts(s.callback, s.callback.id);
  }

  lemma NotHeld(s: System, id: Id)
    requires InStep(s) && id in s.streams
    ensures Underway(s, id) || JustEnded(s, id)
  {
  }

  lemma WorkerAnswers(s: System, g: nat, c: Choice, partial: nat)
    requires g in s.workers && StartingIsAnswered(s) && AllAccounted(s) && InStep(s)
    ensures StartingIsAnswered(WorkerStep(s, g, c, partial))
  {
    var s' := WorkerStep(s, g, c, partial);
    forall id | id in s'.db && s'.db[id] == Starting ensures Answered(s', id) {
      StillStarting(s, g, c, partial, id);
      assert Answered(s, id);
    }
  }

  /** A goroutine's step leaves a stream starting only if it was, and what was underway still is. */
  lemma StillStarting(s: System, g: nat, c: Choice, partial: nat, id: Id)
    requires g in s.workers && AllAccounted(s) && InStep(s)
    requires var s' := WorkerStep(s, g, c, partial); id in s'.db && s'.db[id] == Starting
    ensures id in s.db && s.db[id] == Starting && (Underway(s, id) ==> Underway(WorkerStep(s, g, c, partial), id))
  {
    hide Pow2, RunningIsLive;
    var w := s.workers[g];
    WorkerMoveStays(w, c, IsCancelled(s, w), partial);
    StreamsKnown(s);
    if Registered(w.phase) {
      RegisteredKnown(s, g);
    }
    assert Accounted(w);
    hide WorkerMove, Registry, AllAccounted;
  }

  // ---- every reachable state ----

  ghost predicate Invariant(s: System) {
    InStep(s) && AllAccounted(s) && GaugeCounts(s) && StartingIsAnswered(s)
  }

  /** Every step of every actor keeps all of it. */
  lemma ActKeepsInvariant(s: System, a: Action)
    requires Enabled(s, a) && Invariant(s)
    ensures Invariant(Act(s, a))
  {
    hide Registry, RunningIsLive, AllAccounted, GaugeCounts, StartingIsAnswered, HandlerStep, CallbackStep, WorkerStep, Deliver;
    match a
    case HandlerMoves(h, c) =>
      HandlerKeepsRegistry(s, h, c);
      HandlerAnswers(s, h, c);
      HandlerCounts(s, h, c);
    case CallbackMoves(c, newG) =>
      CallbackKeepsRegistry(s, c, newG);
      CallbackKeepsRunning(s, c, newG);
      CallbackAccounted(s, c, newG);
      CallbackGauge(s, c, newG);
      CallbackAnswers(s, c, newG);
    case WorkerMoves(g, c, partial) =>
      TerminalIsNotRunning(s, g);
      WorkerKeepsRegistry(s, g, c, partial);
      WorkerAccounted(s, g, c, partial);
      WorkerGauge(s, g, c, partial);
      WorkerAnswers(s, g, c, partial);
    case DeliverCommand =>
      DeliverKeeps(s);
      DeliverAnswers(s);
    case _ => OthersKeep(s, a);
  }

  lemma HandlerCounts(s: System, h: nat, c: Choice)
    requires h in s.handlers && AllAccounted(s) && GaugeCounts(s)
    ensures AllAccounted(HandlerStep(s, h, c)) && GaugeCounts(HandlerStep(s, h, c))
  {
    hide HandlerMove, Accounted;
  }

  lemma TerminalIsNotRunning(s: System, g: nat)
    requires AllAccounted(s) && g in s.workers
    ensures s.workers[g].phase != Writing(Running)
  {
    assert Accounted(s.workers[g]);
  }

  lemma DeliverKeeps(s: System)
    requires s.callback.Idle? && s.queue != [] && InStep(s) && AllAccounted(s) && GaugeCounts(s)
    ensures InStep(Deliver(s)) && AllAccounted(Deliver(s)) && GaugeCounts(Deliver(s))
  {
    var s' := Deliver(s);
    DeliveryOnly(s);
    hide Registry, Accounted, BeingUncounted, Deliver, RunningIsLive;
    CallbackMovesOn(s.streams, s.workers, s.callback, s'.callback);
  }

  lemma DeliveryOnly(s: System)
    requires s.callback.Idle? && s.queue != []
    ensures var s' := Deliver(s);
      && s'.workers == s.workers && s'.streams == s.streams && s'.db == s.db && s'.gauge == s.gauge
      && (s'.callback.Idle? || s'.callback.Checking? || s'.callback.LookingUp?)
  {
  }

  lemma OthersKeep(s: System, a: Action)
    requires Enabled(s, a) && Invariant(s) && (a.CreateStream? || a.Arrive? || a.PublishUnknown? || a.Shutdown?)
    ensures Invariant(Act(s, a))
  {
    OthersAnswer(s, a);
    hide Registry, Accounted, StartingIsAnswered, BeingUncounted, Live, HandlerStep, CallbackStep, WorkerStep, Deliver;
  }

  lemma OthersAnswer(s: System, a: Action)
    requires Enabled(s, a) && StartingIsAnswered(s) && (a.CreateStream? || a.Arrive? || a.PublishUnknown? || a.Shutdown?)
    ensures StartingIsAnswered(Act(s, a))
  {
    var s' := Act(s, a);
    assert forall k :: k in s.handlers ==> k in s'.handlers && s'.handlers[k] == s.handlers[k];
    forall id | id in s'.db && s'.db[id] == Starting ensures Answered(s', id) {
      assert Answered(s, id);
      if exists k :: 0 <= k < |s.queue| && s.queue[k].StartCommand? && s.queue[k].id == id {
        var k :| 0 <= k < |s.queue| && s.queue[k].StartCommand? && s.queue[k].id == id;
        assert s'.queue[k] == s.queue[k];
      }
    }
  }

  lemma {:induction false} RunKeepsInvariant(ss: seq<System>, acts: seq<Action>, n: nat)
    requires Run(ss, acts) && n < |ss|
    ensures Invariant(ss[n])
  {
    hide Act, Enabled, Invariant;
    if n == 0 {
      InitialInvariant(ss[0]);
    } else {
      RunKeepsInvariant(ss, acts, n - 1);
      ActKeepsInvariant(ss[n - 1], acts[n - 1]);
    }
  }

  lemma InitialInvariant(s: System)
    requires Initial(s)
    ensures Invariant(s)
  {
    assert BeingUncounted(map[]) == {};
  }

  // ---- what holds in every interleaving ----

  /** A stream marked running is in the manager's map, under a goroutine of its own that has not decided
      its terminal status. */
  lemma RunningIsRegistered(ss: seq<System>, acts: seq<Action>, n: nat, id: Id)
    requires Run(ss, acts) && n < |ss| && id in ss[n].db && ss[n].db[id] == Running
    ensures var s := ss[n];
      && id in s.streams && s.streams[id] in s.workers
      && s.workers[s.streams[id]].id == id && Live(s.workers[s.streams[id]].phase)
  {
    hide Act, Enabled;
    RunKeepsInvariant(ss, acts, n);
  }

  /** At most one goroutine per stream, and the map holds exactly the goroutines that have not deleted
      their entry. */
  lemma OneGoroutinePerStream(ss: seq<System>, acts: seq<Action>, n: nat)
    requires Run(ss, acts) && n < |ss|
    ensures var s := ss[n];
      && (forall g, h ::
            g in s.workers && h in s.workers && s.workers[g].id == s.workers[h].id
            && Registered(s.workers[g].phase) && Registered(s.workers[h].phase)
            ==> g == h)
      && (forall id, g :: id in s.streams && s.streams[id] == g <==>
            g in s.workers && s.workers[g].id == id && Registered(s.workers[g].phase))
  {
    hide Act, Enabled;
    RunKeepsInvariant(ss, acts, n);
  }

  /** A finished goroutine made one to six extraction attempts, waited at most 62 seconds, 2^(r+1) - 2
      after r retries, wrote one terminal status, and its map entry is gone. */
  lemma FinishedGoroutine(ss: seq<System>, acts: seq<Action>, n: nat, g: nat)
    requires Run(ss, acts) && n < |ss| && g in ss[n].workers && ss[n].workers[g].phase.Finished?
    ensures var w := ss[n].workers[g];
      && 1 <= w.extractions <= 6
      && w.waited <= Pow2(w.attempt + 1) - 2 <= 62
      && (w.writes == [Stopped] || w.writes == [Failed])
      && (w.writes == [Failed] ==> w.waited == 62 && (!w.youtube ==> w.extractions == 6))
      && forall id :: id in ss[n].streams ==> ss[n].streams[id] != g
  {
    hide Act, Enabled;
    RunKeepsInvariant(ss, acts, n);
    var w := ss[n].workers[g];
    assert Accounted(w);
    assert w.writes == [w.writes[0]];
    Pow2Facts(w.attempt + 1);
  }

  /** Nothing pending, nothing live. */
  ghost predicate AtRest(s: System) {
    && s.handlers == map[] && s.queue == [] && s.callback.Idle?
    && forall g :: g in s.workers ==> s.workers[g].phase.Finished?
  }

  /** At rest no stream is marked running, the map is empty and the gauge is back at zero; a stream still
      marked starting had its command lost, or refused just after its goroutine had ended. */
  lemma RestingStatus(ss: seq<System>, acts: seq<Action>, n: nat)
    requires Run(ss, acts) && n < |ss| && AtRest(ss[n])
    ensures var s := ss[n];
      && s.streams == map[] && s.gauge == 0
      && forall id :: id in s.db ==>
           s.db[id] != Running && (s.db[id] == Starting && id !in s.lost ==> id in s.refused)
  {
    hide Act, Enabled;
    RunKeepsInvariant(ss, acts, n);
    var s := ss[n];
    assert s.streams.Keys == {};
    assert BeingUncounted(s.workers) == {};
    forall id | id in s.db && s.db[id] == Starting && id !in s.lost ensures id in s.refused {
      assert Answered(s, id);
    }
  }

  /** The callback finds a goroutine that has already written its last status, and refuses the start. */
  predicate RefusedAt(s: System, a: Action, id: Id) {
    a.CallbackMoves? && s.callback.Checking? && s.callback.id == id && JustEnded(s, id)
  }

  lemma NoneRefused(s: System)
    ensures Initial(s) ==> s.refused == {}
  {
  }

  lemma RefusalStep(s: System, a: Action, id: Id)
    requires Enabled(s, a) && id in Act(s, a).refused
    ensures id in s.refused || RefusedAt(s, a, id)
  {
    hide NextCallback, CallbackWorkers, HandlerMove, WorkerMove, Write;
  }

  /** A refusal that is still remembered has happened, and no start has been marked since. */
  lemma {:induction false} RefusalHappened(ss: seq<System>, acts: seq<Action>, n: nat, id: Id) returns (i: nat)
    requires Run(ss, acts) && n < |ss| && id in ss[n].refused
    ensures i < n && RefusedAt(ss[i], acts[i], id) && forall j :: i < j <= n ==> id in ss[j].refused
  {
    hide Act, Enabled, RefusedAt, Initial;
    assert n > 0 by { NoneRefused(ss[0]); }
    i := n - 1;
    RefusalStep(ss[i], acts[i], id);
    if id in ss[n - 1].refused {
      i := RefusalHappened(ss, acts, n - 1, id);
    }
  }

  lemma RestingStartWasRefused(ss: seq<System>, acts: seq<Action>, n: nat, id: Id) returns (i: nat)
    requires Run(ss, acts) && n < |ss| && AtRest(ss[n])
    requires id in ss[n].db && ss[n].db[id] == Starting && id !in ss[n].lost
    ensures i < n && RefusedAt(ss[i], acts[i], id) && forall j :: i < j <= n ==> id in ss[j].refused
  {
    hide *;
    RestingStatus(ss, acts, n);
    i := RefusalHappened(ss, acts, n, id);
  }

  // ---- writes to a row ----

  predicate StatusIs(db: map<Id, Status>, id: Id, st: Status) {
    id in db && db[id] == st
  }

  /** The action writes or deletes the stream's row: a handler's successful access, the callback's status
      or a goroutine's terminal status. */
  predicate TouchesRow(s: System, a: Action, id: Id)
    requires Enabled(s, a)
  {
    match a
    case HandlerMoves(h, c) =>
      var pc := s.handlers[h];
      pc.id == id && !c.Fail? && (pc.StartWrite? || pc.StartUndo? || pc.StopWrite? || pc.DeleteRow?)
    case CallbackMoves(_, _) => (s.callback.MarkingError? || s.callback.MarkingRunning?) && s.callback.id == id
    case WorkerMoves(g, _, _) => s.workers[g].phase.Writing? && s.workers[g].id == id
    case _ => false
  }

  lemma UntouchedStays(s: System, a: Action, id: Id, st: Status)
    requires Enabled(s, a) && !TouchesRow(s, a, id) && (id in s.db || st != Stopped)
    ensures StatusIs(Act(s, a).db, id, st) <==> StatusIs(s.db, id, st)
  {
    hide NextCallback, CallbackWorkers, WorkerMove;
  }

  /** A step that touches a row leaves it starting only by marking a new start, which forgets refusals. */
  lemma TouchedIsNotRefused(s: System, a: Action, id: Id)
    requires Enabled(s, a) && AllAccounted(s) && TouchesRow(s, a, id) && id in Act(s, a).refused
    ensures !StatusIs(Act(s, a).db, id, Starting)
  {
    if a.WorkerMoves? {
      assert Accounted(s.workers[a.g]);
    }
    hide NextCallback, CallbackWorkers, WorkerMove, Accounted;
  }

  /** Starting at the refusal, and not written or deleted since. */
  ghost predicate RefusedForGood(ss: seq<System>, acts: seq<Action>, i: nat, n: nat, id: Id)
    requires Run(ss, acts) && i < n < |ss|
  {
    && RefusedAt(ss[i], acts[i], id) && StatusIs(ss[i].db, id, Starting)
    && forall j :: i <= j < n ==> !TouchesRow(ss[j], acts[j], id)
  }

  /** Exactly this leaves a stream starting for ever while no command is lost: after the row is marked
      starting the start is refused, between the terminal status of its goroutine and the deletion of
      its map entry, and nothing writes or deletes the row afterwards. */
  lemma RestingStartWasTooLate(ss: seq<System>, acts: seq<Action>, n: nat, id: Id)
    requires Run(ss, acts) && n < |ss| && AtRest(ss[n]) && id !in ss[n].lost
    ensures StatusIs(ss[n].db, id, Starting) <==> exists i :: 0 <= i < n && RefusedForGood(ss, acts, i, n, id)
  {
    hide Act, Enabled, RefusedAt, TouchesRow, Initial;
    if StatusIs(ss[n].db, id, Starting) {
      var i := RestingStartWasRefused(ss, acts, n, id);
      StartingSince(ss, acts, i, n, n, id);
      assert RefusedForGood(ss, acts, i, n, id);
    }
    if i :| 0 <= i < n && RefusedForGood(ss, acts, i, n, id) {
      StaysStarting(ss, acts, i, n, id);
    }
  }

  lemma {:induction false} StaysStarting(ss: seq<System>, acts: seq<Action>, i: nat, n: nat, id: Id)
    requires Run(ss, acts) && i <= n < |ss| && StatusIs(ss[i].db, id, Starting)
    requires forall j :: i <= j < n ==> !TouchesRow(ss[j], acts[j], id)
    ensures StatusIs(ss[n].db, id, Starting)
    decreases n - i
  {
    hide Act, Enabled, TouchesRow, StatusIs;
    if i < n {
      StaysStarting(ss, acts, i, n - 1, id);
      assert StatusIs(ss[n - 1].db, id, Starting);
      UntouchedStays(ss[n - 1], acts[n - 1], id, Starting);
    }
  }

  /** Looking back: as long as the refusal is remembered, starting means starting and untouched since. */
  lemma {:induction false} StartingSince(ss: seq<System>, acts: seq<Action>, i: nat, k: nat, n: nat, id: Id)
    requires Run(ss, acts) && i < k <= n < |ss| && RefusedAt(ss[i], acts[i], id)
    requires (forall j :: i < j <= n ==> id in ss[j].refused) && StatusIs(ss[k].db, id, Starting)
    ensures StatusIs(ss[i].db, id, Starting) && forall j :: i <= j < k ==> !TouchesRow(ss[j], acts[j], id)
    decreases k
  {
    hide Act, Enabled, RefusedAt, TouchesRow, StatusIs, Invariant;
    var s, a := ss[k - 1], acts[k - 1];
    RunKeepsInvariant(ss, acts, k - 1);
    assert AllAccounted(s) by { InvariantAccounts(s); }
    if TouchesRow(s, a, id) {
      TouchedIsNotRefused(s, a, id);
    }
    UntouchedStays(s, a, id, Starting);
    if i < k - 1 {
      StartingSince(ss, acts, i, k - 1, n, id);
    }
  }

  lemma InvariantAccounts(s: System)
    requires Invariant(s)
    ensures AllAccounted(s) && InStep(s)
  {
  }

  // ---- when the row of a live goroutine says running ----

  /** The callback marks the stream of goroutine g running. */
  predicate MarksRunning(s: System, a: Action, g: nat) {
    a.CallbackMoves? && s.callback.MarkingRunning? && s.callback.g == g
  }

  /** Marked, with the terminal status still to come. */
  predicate Settled(s: System, g: nat) {
    && g in s.workers && Live(s.workers[g].phase)
    && (s.workers[g].phase.NotSpawned? ==> s.callback.Spawning? && s.callback.g == g)
  }

  /** Nothing but the callback's marking settles a goroutine. */
  lemma SettlingMarks(s: System, a: Action, g: nat)
    requires Enabled(s, a) && InStep(s) && Settled(Act(s, a), g) && !Settled(s, g)
    ensures MarksRunning(s, a, g) && g in s.workers && s.callback.id == s.workers[g].id == Act(s, a).workers[g].id
    ensures StatusIs(Act(s, a).db, s.workers[g].id, Running) <==> s.workers[g].id in s.db
  {
    hide HandlerMove, RunningIsLive;
    if a.WorkerMoves? {
      WorkerMoveStays(s.workers[a.g], a.c, IsCancelled(s, s.workers[a.g]), a.partial);
    }
    if g in s.workers {
      SpawnedOrHeld(s, g);
    }
    hide WorkerMove, Registry;
  }

  lemma SpawnedOrHeld(s: System, g: nat)
    requires Registry(s.streams, s.workers, s.callback) && g in s.workers
    ensures s.workers[g].phase.NotSpawned? ==> Holds(s.callback, g) && s.callback.id == s.workers[g].id
  {
  }

  /** While a goroutine is settled, its row says running until somebody touches it. */
  lemma SettledRow(s: System, a: Action, g: nat)
    requires Enabled(s, a) && InStep(s) && AllAccounted(s) && Settled(s, g) && Settled(Act(s, a), g)
    ensures Act(s, a).workers[g].id == s.workers[g].id
    ensures var id := s.workers[g].id;
      StatusIs(Act(s, a).db, id, Running) <==> StatusIs(s.db, id, Running) && !TouchesRow(s, a, id)
  {
    hide RunningIsLive;
    SameStream(s, a, g);
    var id := s.workers[g].id;
    if !TouchesRow(s, a, id) {
      UntouchedStays(s, a, id, Running);
    } else {
      TouchStops(s, a, g);
    }
    hide *;
  }

  lemma SameStream(s: System, a: Action, g: nat)
    requires Enabled(s, a) && InStep(s) && g in s.workers
    ensures g in Act(s, a).workers && Act(s, a).workers[g].id == s.workers[g].id
  {
    hide InStep;
    if a.WorkerMoves? {
      WorkerMoveStays(s.workers[a.g], a.c, IsCancelled(s, s.workers[a.g]), a.partial);
      hide WorkerMove;
    } else {
      OthersKeepWorker(s, a, g);
      hide Act;
    }
  }

  lemma TouchStops(s: System, a: Action, g: nat)
    requires Enabled(s, a) && InStep(s) && AllAccounted(s) && Settled(s, g) && Settled(Act(s, a), g)
    requires TouchesRow(s, a, s.workers[g].id)
    ensures !StatusIs(Act(s, a).db, s.workers[g].id, Running)
  {
    RegisteredKnown(s, g);
    if a.CallbackMoves? && s.callback.MarkingRunning? {
      CallbackHolds(s, s.callback.g);
    }
    if a.WorkerMoves? {
      RegisteredKnown(s, a.g);
      WorkerMoveStays(s.workers[a.g], a.c, IsCancelled(s, s.workers[a.g]), a.partial);
    }
    hide Registry, RunningIsLive, WorkerMove, NextCallback, CallbackWorkers, AllAccounted;
  }

  /** A live goroutine was marked running once, and its stream's row says "running" exactly if the row
      existed then and nobody has written or deleted it since. */
  lemma {:induction false} LiveRowIsRunning(ss: seq<System>, acts: seq<Action>, n: nat, g: nat) returns (m: nat)
    requires Run(ss, acts) && n < |ss| && Settled(ss[n], g)
    ensures m < n && MarksRunning(ss[m], acts[m], g) && ss[m].callback.id == ss[n].workers[g].id
    ensures forall i :: m < i <= n ==> Settled(ss[i], g) && ss[i].workers[g].id == ss[n].workers[g].id
    ensures var id := ss[n].workers[g].id;
      StatusIs(ss[n].db, id, Running) <==> id in ss[m].db && forall i :: m < i < n ==> !TouchesRow(ss[i], acts[i], id)
  {
    hide Act, Enabled, Settled, TouchesRow, MarksRunning, StatusIs, Invariant;
    assert n > 0 by { NothingSettled(ss[0], g); }
    var s, a := ss[n - 1], acts[n - 1];
    RunKeepsInvariant(ss, acts, n - 1);
    InvariantAccounts(s);
    hide AllAccounted, InStep;
    if Settled(s, g) {
      m := LiveRowIsRunning(ss, acts, n - 1, g);
      SettledRow(s, a, g);
    } else {
      SettlingMarks(s, a, g);
      m := n - 1;
    }
  }

  lemma NothingSettled(s: System, g: nat)
    ensures Initial(s) ==> !Settled(s, g)
  {
  }

  // ---- cancellation ----

  /** Cancelled, not a YouTube stream, and not already given up. */
  ghost predicate BoundToStop(s: System, g: nat) {
    && g in s.workers
    && !s.workers[g].youtube && IsCancelled(s, s.workers[g])
    && s.workers[g].phase != Writing(Failed) && Failed !in s.workers[g].writes
  }

  lemma WorkerStaysBound(w: Worker, c: Choice, partial: nat)
    requires Accounted(w) && !w.youtube && w.phase != Writing(Failed) && Failed !in w.writes
    ensures var w' := WorkerMove(w, c, true, partial); w'.phase != Writing(Failed) && Failed !in w'.writes
  {
    hide Pow2, Verdict;
  }

  /** w' is w, perhaps cancelled or spawned. */
  predicate SameGoroutine(w: Worker, w': Worker) {
    && w'.id == w.id && w'.youtube == w.youtube && w'.writes == w.writes && (w.cancelled ==> w'.cancelled)
    && (w'.phase == w.phase || (w.phase.NotSpawned? && w'.phase.Extracting?))
  }

  /** No other actor undoes a cancellation or decides for the goroutine. */
  lemma OthersKeepWorker(s: System, a: Action, g: nat)
    requires Enabled(s, a) && g in s.workers && !a.WorkerMoves? && InStep(s)
    ensures var s' := Act(s, a);
      (s.shutdown ==> s'.shutdown) && g in s'.workers && SameGoroutine(s.workers[g], s'.workers[g])
  {
    if a.CallbackMoves? {
      CallbackKeepsWorker(s, a.newG, g);
    }
    hide HandlerMove, NextCallback, CallbackWorkers, Write, Registry, RunningIsLive;
  }

  lemma CallbackKeepsWorker(s: System, newG: nat, g: nat)
    requires newG !in s.workers && g in s.workers && InStep(s)
    ensures var workers := CallbackWorkers(s.callback, s.workers, newG);
      g in workers && SameGoroutine(s.workers[g], workers[g])
  {
    if s.callback.Spawning? {
      CallbackHolds(s, s.callback.g);
    }
    hide Registry, RunningIsLive;
  }

  lemma ActStaysBound(s: System, a: Action, g: nat)
    requires Enabled(s, a) && Invariant(s) && BoundToStop(s, g)
    ensures BoundToStop(Act(s, a), g)
  {
    assert Accounted(s.workers[g]);
    hide Registry, RunningIsLive, GaugeCounts, StartingIsAnswered, AllAccounted, Accounted, Write;
    if a.WorkerMoves? {
      WorkerStaysBound(s.workers[g], a.c, a.partial);
      WorkerMoveStays(s.workers[g], a.c, true, a.partial);
      hide WorkerMove;
    } else {
      OthersKeepWorker(s, a, g);
      hide Act;
    }
  }

  /** Once cancelled before the outcome of its last attempt is checked, a goroutine of a stream other
      than YouTube can only end with "stopped". */
  lemma {:induction false} CancelledEndsStopped(ss: seq<System>, acts: seq<Action>, m: nat, n: nat, g: nat)
    requires Run(ss, acts) && m <= n < |ss| && BoundToStop(ss[m], g)
    ensures BoundToStop(ss[n], g)
    ensures ss[n].workers[g].phase.Finished? ==> ss[n].workers[g].writes == [Stopped]
    decreases n - m
  {
    hide Act, Enabled, Invariant;
    if m < n {
      CancelledEndsStopped(ss, acts, m, n - 1, g);
      RunKeepsInvariant(ss, acts, n - 1);
      ActStaysBound(ss[n - 1], acts[n - 1], g);
    }
    if ss[n].workers[g].phase.Finished? {
      FinishedGoroutine(ss, acts, n, g);
      assert Failed !in ss[n].workers[g].writes;
    }
  }

  /** Decided on "error", written or not. */
  predicate GivenUp(w: Worker) {
    w.phase == Writing(Failed) || Failed in w.writes
  }

  /** The URL resolution before the last attempt fails, an outcome the code does not check against the
      context. */
  predicate LastResolutionFails(s: System, a: Action, g: nat) {
    && a.WorkerMoves? && a.g == g && !a.c.Ok?
    && g in s.workers && s.workers[g].phase.ReResolving? && s.workers[g].attempt == MAX_RETRIES
  }

  lemma WorkerGivesUp(w: Worker, c: Choice, partial: nat)
    requires Accounted(w)
    ensures GivenUp(WorkerMove(w, c, true, partial))
      <==> GivenUp(w) || (w.phase.ReResolving? && w.attempt == MAX_RETRIES && !c.Ok?)
  {
    hide Pow2, Verdict;
  }

  lemma ActGivesUp(s: System, a: Action, g: nat)
    requires Enabled(s, a) && Invariant(s) && g in s.workers && IsCancelled(s, s.workers[g])
    ensures var s' := Act(s, a);
      && g in s'.workers && IsCancelled(s', s'.workers[g])
      && s'.workers[g].youtube == s.workers[g].youtube
      && (GivenUp(s'.workers[g]) <==> GivenUp(s.workers[g]) || LastResolutionFails(s, a, g))
      && (LastResolutionFails(s, a, g) ==> s.workers[g].youtube)
  {
    assert Accounted(s.workers[g]);
    assert s.workers[g].phase.ReResolving? ==> s.workers[g].youtube;
    InvariantAccounts(s);
    if a.WorkerMoves? {
      WorkerGivesUp(s.workers[g], a.c, a.partial);
      WorkerMoveStays(s.workers[g], a.c, true, a.partial);
      MovesOneWorker(s, a, g);
      hide Act, WorkerMove, Invariant, Accounted;
    } else {
      hide Invariant, Accounted;
      OthersKeepWorker(s, a, g);
      hide Act;
    }
  }

  lemma MovesOneWorker(s: System, a: Action, g: nat)
    requires Enabled(s, a) && a.WorkerMoves? && g in s.workers
    ensures var s' := Act(s, a);
      && s'.shutdown == s.shutdown && g in s'.workers
      && s'.workers[g] == if a.g == g then WorkerMove(s.workers[g], a.c, IsCancelled(s, s.workers[g]), a.partial) else s.workers[g]
  {
    hide WorkerMove, Write;
  }

  /** A goroutine cancelled before it has given up ends with "error" exactly if the resolution before its
      last attempt fails afterwards, which only YouTube streams have. */
  lemma {:induction false} CancelledFailsOnlyInResolution(ss: seq<System>, acts: seq<Action>, m: nat, n: nat, g: nat)
    requires Run(ss, acts) && m <= n < |ss|
    requires g in ss[m].workers && IsCancelled(ss[m], ss[m].workers[g]) && !GivenUp(ss[m].workers[g])
    ensures g in ss[n].workers && IsCancelled(ss[n], ss[n].workers[g])
    ensures GivenUp(ss[n].workers[g]) <==> exists i :: m <= i < n && LastResolutionFails(ss[i], acts[i], g)
    ensures GivenUp(ss[n].workers[g]) ==> ss[n].workers[g].youtube
    ensures ss[n].workers[g].phase.Finished? ==> ss[n].workers[g].writes == if GivenUp(ss[n].workers[g]) then [Failed] else [Stopped]
    decreases n - m
  {
    hide Act, Enabled, Invariant, IsCancelled, LastResolutionFails;
    if m < n {
      CancelledFailsOnlyInResolution(ss, acts, m, n - 1, g);
      RunKeepsInvariant(ss, acts, n - 1);
      ActGivesUp(ss[n - 1], acts[n - 1], g);
    }
    if ss[n].workers[g].phase.Finished? {
      FinishedGoroutine(ss, acts, n, g);
    }
  }

  // ---- runs that exist ----

  ghost predicate Reaches(s: System, t: System) {
    exists ss, acts :: Run(ss, acts) && ss[0] == s && ss[|acts|] == t
  }

  lemma ReachesOneMore(s: System, t: System, a: Action)
    requires Reaches(s, t) && Enabled(t, a)
    ensures Reaches(s, Act(t, a))
  {
    var ss, acts :| Run(ss, acts) && ss[0] == s && ss[|acts|] == t;
    hide Act, Enabled, Initial;
    var ss', acts' := ss + [Act(t, a)], acts + [a];
    forall i | 0 <= i < |acts'| ensures Enabled(ss'[i], acts'[i]) && ss'[i + 1] == Act(ss'[i], acts'[i]) {
      if i < |acts| {
        assert ss'[i] == ss[i] && ss'[i + 1] == ss[i + 1] && acts'[i] == acts[i];
      }
    }
    assert Run(ss', acts');
  }

  lemma Perform(s: System, t: System, a: Action) returns (u: System)
    requires Reaches(s, t) && Enabled(t, a)
    ensures Reaches(s, u) && u == Act(t, a)
  {
    ReachesOneMore(s, t, a);
    u := Act(t, a);
  }

  lemma CallbackDoes(s: System, t: System, c: Choice, newG: nat) returns (u: System)
    requires Reaches(s, t) && newG !in t.workers
    ensures Reaches(s, u) && u == CallbackStep(t, c, newG)
  {
    hide Reaches, CallbackStep;
    u := Perform(s, t, CallbackMoves(c, newG));
  }

  lemma WorkerDoes(s: System, t: System, g: nat, c: Choice) returns (u: System)
    requires Reaches(s, t) && g in t.workers
    ensures Reaches(s, u) && u == WorkerStep(t, g, c, 0)
  {
    hide Reaches, WorkerStep;
    u := Perform(s, t, WorkerMoves(g, c, 0));
  }

  lemma HandlerDoes(s: System, t: System, h: nat, c: Choice) returns (u: System)
    requires Reaches(s, t) && h in t.handlers
    ensures Reaches(s, u) && u == HandlerStep(t, h, c)
  {
    hide Reaches, HandlerStep;
    u := Perform(s, t, HandlerMoves(h, c));
  }

  lemma ArrivalDoes(s: System, t: System, h: nat, pc: Handler) returns (u: System)
    requires Reaches(s, t) && h !in t.handlers && (pc.StartRead? || pc.StopRead? || pc.DeleteRead?)
    ensures Reaches(s, u) && u == t.(handlers := t.handlers[h := pc])
  {
    hide Reaches;
    u := Perform(s, t, Arrive(h, pc));
  }

  lemma DeliveryDoes(s: System, t: System) returns (u: System)
    requires Reaches(s, t) && t.callback.Idle? && t.queue != []
    ensures Reaches(s, u) && u == Deliver(t)
  {
    hide Reaches, Deliver;
    u := Perform(s, t, DeliverCommand);
  }

  function OneStopped(id: Id): System {
    System(map[id := Stopped], [], map[], Idle, map[], map[], 0, false, {}, {})
  }

  lemma Begin(id: Id)
    ensures Reaches(OneStopped(id), OneStopped(id))
  {
    assert Run([OneStopped(id)], []);
  }

  /** A stream can rest as "starting" for ever: a second start arrives after the goroutine has written
      its terminal status and before it deletes its map entry, so the command is refused. */
  lemma StartCanGoUnanswered(id: Id) returns (t: System)
    ensures Reaches(OneStopped(id), t) && AtRest(t) && id in t.db && t.db[id] == Starting && t.lost == {}
  {
    hide Reaches;
    var s := OneStopped(id);
    Begin(id);
    t := StartStream(s, s, id, false, 0);
    t := TakeIn(s, t, id, false);
    t := Spawn(s, t, id, false);
    t := ExtractOnce(s, t, id, false, true);
    t := EndWith(s, t, id, Worker(id, false, CheckingOutcome(false), 0, 1, 0, false, []), Stopped);
    t := StartStream(s, t, id, false, 1);
    t := Refuse(s, t, id);
    t := Leave(s, t, id, Worker(id, false, Leaving, 0, 1, 0, false, [Stopped]));
  }

  /** A stopped YouTube stream can end as "error": the stop reaches the goroutine while it resolves its
      URL for the last time, and the resolution fails. */
  lemma StoppedYoutubeCanFail(id: Id) returns (t: System)
    ensures Reaches(OneStopped(id), t) && AtRest(t) && id in t.db && t.db[id] == Failed
    ensures 0 in t.workers && t.workers[0].cancelled && t.workers[0].writes == [Failed]
  {
    hide Reaches;
    var s := OneStopped(id);
    t := UpToLastResolution(id);
    t := StopStream(s, t, id, 1);
    t := StopDelivered(s, t, id);
    t := EndWith(s, t, id, Worker(id, true, ReResolving, 5, 1, 62, true, []), Failed);
    t := Leave(s, t, id, Worker(id, true, Leaving, 5, 1, 62, true, [Failed]));
  }

  /** A stop that overtakes its start: a stop request served between the start request's first write and
      its publish.  The goroutine goes on for a stream whose row says "stopped", nothing pending, nothing
      lost. */
  lemma StopOvertakesStart(id: Id) returns (t: System)
    ensures Reaches(OneStopped(id), t) && Settled(t, 0) && t.workers[0] == Worker(id, false, Extracting, 0, 0, 0, false, [])
    ensures t.handlers == map[] && t.queue == [] && t.callback.Idle? && t.lost == {} && t.db == map[id := Stopped]
  {
    hide Reaches;
    var s := OneStopped(id);
    t := StopBetween(id);
    t := StopMissesStart(s, t, id);
    t := TakeIn(s, t, id, false);
    t := Spawn(s, t, id, false);
    t := HandlerDoes(s, t, 1, Ok);
    assert t.handlers == map[];
  }

  /** Both requests are under way, the stop command first in the queue. */
  lemma StopBetween(id: Id) returns (t: System)
    ensures Reaches(OneStopped(id), t)
    ensures t == System(map[id := Starting], [StopCommand(id)], map[0 := StartPublish(id, false), 1 := StopWrite(id)],
                        Idle, map[], map[], 0, false, {}, {})
  {
    hide Reaches;
    var s := OneStopped(id);
    Begin(id);
    t := ArrivalDoes(s, s, 0, StartRead(id, false));
    t := HandlerDoes(s, t, 0, Ok);
    t := HandlerDoes(s, t, 0, Ok);
    assert t == s.(db := map[id := Starting], handlers := map[0 := StartPublish(id, false)]);
    t := ArrivalDoes(s, t, 1, StopRead(id));
    t := HandlerDoes(s, t, 1, Ok);
    t := HandlerDoes(s, t, 1, Ok);
  }

  lemma StopMissesStart(s: System, t: System, id: Id) returns (u: System)
    requires Reaches(s, t)
    requires t == System(map[id := Starting], [StopCommand(id)], map[0 := StartPublish(id, false), 1 := StopWrite(id)],
                         Idle, map[], map[], 0, false, {}, {})
    ensures Reaches(s, u)
    ensures u == t.(queue := [StartCommand(id, false)], handlers := map[1 := StopWrite(id)])
  {
    hide Reaches;
    u := DeliveryDoes(s, t);
    u := CallbackDoes(s, u, Ok, 0);
    u := HandlerDoes(s, u, 0, Ok);
    assert u.handlers == map[1 := StopWrite(id)];
  }

  lemma UpToLastResolution(id: Id) returns (t: System)
    ensures Reaches(OneStopped(id), t)
    ensures t == System(map[id := Running], [], map[], Idle, map[id := 0],
                        map[0 := Worker(id, true, ReResolving, 5, 1, 62, false, [])], 1, false, {}, {})
  {
    hide Reaches;
    var s := OneStopped(id);
    Begin(id);
    t := StartStream(s, s, id, true, 0);
    t := TakeIn(s, t, id, true);
    t := Spawn(s, t, id, true);
    t := ExtractOnce(s, t, id, true, false);
    t := BackOff(s, t, id);
    assert Pow2(2) == 4;
    t := RetryToLast(s, t, id, 1, 2);
  }

  lemma StartStream(s: System, t: System, id: Id, yt: bool, h: nat) returns (u: System)
    requires Reaches(s, t) && t.handlers == map[] && id in t.db && t.db[id] != Running
    ensures Reaches(s, u) && u == t.(db := t.db[id := Starting], queue := t.queue + [StartCommand(id, yt)],
                                     refused := t.refused - {id}, lost := t.lost - {id})
  {
    hide Reaches;
    u := ArrivalDoes(s, t, h, StartRead(id, yt));
    u := HandlerDoes(s, u, h, Ok);
    u := HandlerDoes(s, u, h, Ok);
    u := HandlerDoes(s, u, h, Ok);
    assert u.handlers == map[];
  }

  lemma StopStream(s: System, t: System, id: Id, h: nat) returns (u: System)
    requires Reaches(s, t) && t.handlers == map[] && id in t.db
    ensures Reaches(s, u) && u == t.(db := t.db[id := Stopped], queue := t.queue + [StopCommand(id)])
  {
    hide Reaches;
    u := ArrivalDoes(s, t, h, StopRead(id));
    u := HandlerDoes(s, u, h, Ok);
    u := HandlerDoes(s, u, h, Ok);
    u := HandlerDoes(s, u, h, Ok);
    assert u.handlers == map[];
  }

  /** The start command is delivered, found to be new, resolved if need be, and registered. */
  lemma TakeIn(s: System, t: System, id: Id, yt: bool) returns (u: System)
    requires Reaches(s, t) && t.queue == [StartCommand(id, yt)] && t.callback == Idle
    requires t.streams == map[] && t.workers == map[]
    ensures Reaches(s, u)
    ensures u == t.(queue := [], callback := Counting(id, 0), streams := map[id := 0],
                    workers := map[0 := Worker(id, yt, NotSpawned, 0, 0, 0, false, [])])
  {
    hide Reaches;
    u := DeliveryDoes(s, t);
    assert u == t.(queue := [], callback := Checking(id, yt));
    u := CallbackDoes(s, u, Ok, 0);
    if yt {
      u := CallbackDoes(s, u, Ok, 0);
    }
    assert u == t.(queue := [], callback := Inserting(id, yt));
    hide Deliver;
    u := CallbackDoes(s, u, Ok, 0);
  }

  lemma Spawn(s: System, t: System, id: Id, yt: bool) returns (u: System)
    requires Reaches(s, t) && t.callback == Counting(id, 0) && id in t.db
    requires t.workers == map[0 := Worker(id, yt, NotSpawned, 0, 0, 0, false, [])]
    ensures Reaches(s, u)
    ensures u == t.(db := t.db[id := Running], callback := Idle, gauge := t.gauge + 1,
                    workers := map[0 := Worker(id, yt, Extracting, 0, 0, 0, false, [])])
  {
    hide Reaches;
    u := CallbackDoes(s, t, Ok, 1);
    u := CallbackDoes(s, u, Ok, 1);
    u := CallbackDoes(s, u, Ok, 1);
  }

  /** A step that concerns the goroutine alone. */
  lemma Alone(s: System, t: System, w: Worker, c: Choice) returns (u: System)
    requires Reaches(s, t) && t.workers == map[0 := w]
    requires !w.phase.Writing? && !w.phase.Leaving? && !w.phase.Uncounting?
    ensures Reaches(s, u)
    ensures u == t.(workers := map[0 := WorkerMove(w, c, w.cancelled || t.shutdown, 0)])
  {
    hide Reaches, WorkerMove;
    u := WorkerDoes(s, t, 0, c);
  }

  lemma ExtractOnce(s: System, t: System, id: Id, yt: bool, ok: bool) returns (u: System)
    requires Reaches(s, t) && t.workers == map[0 := Worker(id, yt, Extracting, 0, 0, 0, false, [])]
    ensures Reaches(s, u)
    ensures u == t.(workers := map[0 := Worker(id, yt, CheckingOutcome(!ok), 0, 1, 0, false, [])])
  {
    hide Reaches;
    u := Alone(s, t, t.workers[0], if ok then Ok else Fail);
  }

  /** The failed first attempt leads to the first back-off, and that to a resolution. */
  lemma BackOff(s: System, t: System, id: Id) returns (u: System)
    requires Reaches(s, t) && !t.shutdown
    requires t.workers == map[0 := Worker(id, true, CheckingOutcome(true), 0, 1, 0, false, [])]
    ensures Reaches(s, u) && u == t.(workers := map[0 := Worker(id, true, ReResolving, 1, 1, 2, false, [])])
  {
    hide Reaches;
    assert Pow2(1) == 2;
    u := Alone(s, t, t.workers[0], Ok);
    u := Alone(s, u, u.workers[0], Ok);
  }

  /** Each failed resolution is followed by a longer back-off and another one, up to the last. */
  lemma {:induction false} RetryToLast(s: System, t: System, id: Id, k: nat, waited: nat) returns (u: System)
    requires Reaches(s, t) && !t.shutdown && 1 <= k <= MAX_RETRIES && waited == Pow2(k + 1) - 2
    requires t.workers == map[0 := Worker(id, true, ReResolving, k, 1, waited, false, [])]
    ensures Reaches(s, u) && u == t.(workers := map[0 := Worker(id, true, ReResolving, 5, 1, 62, false, [])])
    decreases MAX_RETRIES - k
  {
    hide Reaches;
    Pow2Facts(k + 1);
    assert Pow2(k + 2) == 2 * Pow2(k + 1);
    u := t;
    if k < MAX_RETRIES {
      u := RetryOnce(s, t, id, k, waited);
      hide Pow2;
      u := RetryToLast(s, u, id, k + 1, waited + Pow2(k + 1));
    }
  }

  lemma RetryOnce(s: System, t: System, id: Id, k: nat, waited: nat) returns (u: System)
    requires Reaches(s, t) && !t.shutdown && 1 <= k < MAX_RETRIES
    requires t.workers == map[0 := Worker(id, true, ReResolving, k, 1, waited, false, [])]
    ensures Reaches(s, u)
    ensures u == t.(workers := map[0 := Worker(id, true, ReResolving, k + 1, 1, waited + Pow2(k + 1), false, [])])
  {
    hide Reaches, Pow2;
    u := Alone(s, t, t.workers[0], Fail);
    u := Alone(s, u, Worker(id, true, Waiting, k + 1, 1, waited, false, []), Ok);
  }

  lemma StopDelivered(s: System, t: System, id: Id) returns (u: System)
    requires Reaches(s, t) && t.queue == [StopCommand(id)] && t.callback == Idle
    requires id in t.streams && t.streams[id] == 0 && 0 in t.workers && 1 !in t.workers
    ensures Reaches(s, u)
    ensures u == t.(queue := [], workers := t.workers[0 := t.workers[0].(cancelled := true)])
  {
    hide Reaches;
    u := DeliveryDoes(s, t);
    u := CallbackDoes(s, u, Ok, 1);
    u := CallbackDoes(s, u, Ok, 1);
  }

  /** The goroutine decides on its terminal status and writes it. */
  lemma EndWith(s: System, t: System, id: Id, w: Worker, st: Status) returns (u: System)
    requires Reaches(s, t) && t.workers == map[0 := w] && id in t.db && w.id == id && w.writes == []
    requires !w.phase.Writing? && !w.phase.Leaving? && !w.phase.Uncounting?
    requires WorkerMove(w, Fail, w.cancelled || t.shutdown, 0) == w.(phase := Writing(st))
    ensures Reaches(s, u)
    ensures u == t.(db := t.db[id := st], workers := map[0 := w.(phase := Leaving, writes := [st])])
  {
    hide Reaches, LocalStep;
    u := Alone(s, t, w, Fail);
    assert [] + [st] == [st];
    u := WorkerDoes(s, u, 0, Ok);
  }

  lemma Refuse(s: System, t: System, id: Id) returns (u: System)
    requires Reaches(s, t) && t.queue == [StartCommand(id, false)] && t.callback == Idle && JustEnded(t, id)
    requires 1 !in t.workers
    ensures Reaches(s, u) && u == t.(queue := [], refused := t.refused + {id})
  {
    hide Reaches;
    u := DeliveryDoes(s, t);
    u := CallbackDoes(s, u, Ok, 1);
  }

  lemma Leave(s: System, t: System, id: Id, w: Worker) returns (u: System)
    requires Reaches(s, t) && t.workers == map[0 := w] && w.phase == Leaving && w.id == id
    ensures Reaches(s, u)
    ensures u == t.(gauge := t.gauge - 1, streams := t.streams - {id}, workers := map[0 := w.(phase := Finished)])
  {
    hide Reaches, LocalStep;
    u := WorkerDoes(s, t, 0, Ok);
    u := WorkerDoes(s, u, 0, Ok);
  }

  // ---- why commands come one at a time ----

  /** The system with a second command callback beside the first. */
  datatype Overlapping = Overlapping(s: System, other: Callback)

  predicate IsCallbackAction(a: Action) {
    a.DeliverCommand? || a.CallbackMoves?
  }

  /** What the second callback does: the first's steps, from its own place. */
  function OtherAct(p: Overlapping, a: Action): Overlapping
    requires IsCallbackAction(a) && Enabled(p.s.(callback := p.other), a)
  {
    var s' := Act(p.s.(callback := p.other), a);
    Overlapping(s'.(callback := p.s.callback), s'.callback)
  }

  /** Either callback may deliver and move; all else is as before. */
  ghost predicate OverlappingStep(p: Overlapping, q: Overlapping) {
    || (exists a :: Enabled(p.s, a) && q == p.(s := Act(p.s, a)))
    || (exists a :: IsCallbackAction(a) && Enabled(p.s.(callback := p.other), a) && q == OtherAct(p, a))
  }

  ghost predicate OverlappingRun(ps: seq<Overlapping>) {
    && ps != [] && Initial(ps[0].s) && ps[0].other == Idle
    && forall i :: 0 <= i < |ps| - 1 ==> OverlappingStep(ps[i], ps[i + 1])
  }

  ghost predicate OverlappingReaches(p: Overlapping) {
    exists ps :: OverlappingRun(ps) && ps[|ps| - 1] == p
  }

  lemma OverlappingOneMore(p: Overlapping, q: Overlapping)
    requires OverlappingReaches(p) && OverlappingStep(p, q)
    ensures OverlappingReaches(q)
  {
    hide Initial, OverlappingStep;
    var ps :| OverlappingRun(ps) && ps[|ps| - 1] == p;
    var ps' := ps + [q];
    assert OverlappingRun(ps') && ps'[|ps'| - 1] == q;
  }

  lemma FirstMoves(p: Overlapping, a: Action) returns (q: Overlapping)
    requires OverlappingReaches(p) && Enabled(p.s, a)
    ensures OverlappingReaches(q) && q == p.(s := Act(p.s, a))
  {
    hide Act, Enabled, OverlappingReaches;
    q := p.(s := Act(p.s, a));
    OverlappingOneMore(p, q);
  }

  lemma OtherMoves(p: Overlapping, a: Action) returns (q: Overlapping)
    requires OverlappingReaches(p) && IsCallbackAction(a) && Enabled(p.s.(callback := p.other), a)
    ensures OverlappingReaches(q) && q == OtherAct(p, a)
  {
    hide OtherAct, Enabled, OverlappingReaches, Act;
    q := OtherAct(p, a);
    OverlappingOneMore(p, q);
  }

  /** Every run of the system is one in which the second callback stays idle. */
  lemma {:induction false} RunOverlaps(ss: seq<System>, acts: seq<Action>, n: nat)
    requires Run(ss, acts) && n < |ss|
    ensures OverlappingReaches(Overlapping(ss[n], Idle))
  {
    hide Act, Enabled;
    var p := Overlapping(ss[n], Idle);
    if n == 0 {
      assert OverlappingRun([p]);
    } else {
      RunOverlaps(ss, acts, n - 1);
      hide OverlappingReaches;
      var q := FirstMoves(Overlapping(ss[n - 1], Idle), acts[n - 1]);
    }
  }

  lemma ReachesOverlaps(s: System, t: System)
    requires Reaches(s, t)
    ensures OverlappingReaches(Overlapping(t, Idle))
  {
    hide OverlappingReaches, Enabled, Act, Initial;
    var ss, acts :| Run(ss, acts) && ss[0] == s && ss[|acts|] == t;
    RunOverlaps(ss, acts, |acts|);
  }

  /** Two start requests for one stream, and two callbacks that both pass the existence check before
      either inserts: two live goroutines of the stream, and the map knows one of them. */
  lemma OverlappingCallbacksRace(id: Id) returns (p: Overlapping)
    ensures OverlappingReaches(p)
    ensures p.s.streams == map[id := 1] && p.s.workers.Keys == {0, 1}
    ensures forall g :: g in p.s.workers ==> p.s.workers[g].id == id && p.s.workers[g].phase == Extracting
  {
    hide Reaches, OverlappingReaches;
    var s := OneStopped(id);
    Begin(id);
    var t := StartStream(s, s, id, false, 0);
    t := StartStream(s, t, id, false, 1);
    ReachesOverlaps(s, t);
    p := BothPastTheCheck(Overlapping(t, Idle), id);
    p := BothInsert(p, id);
    p := BothSpawn(p, id);
  }

  lemma BothPastTheCheck(p: Overlapping, id: Id) returns (q: Overlapping)
    requires OverlappingReaches(p) && p.other == p.s.callback == Idle
    requires p.s.queue == [StartCommand(id, false), StartCommand(id, false)]
    requires p.s.streams == map[] && p.s.workers == map[]
    ensures OverlappingReaches(q)
    ensures q == Overlapping(p.s.(queue := [], callback := Inserting(id, false)), Inserting(id, false))
  {
    hide OverlappingReaches, HandlerStep, WorkerStep;
    q := FirstMoves(p, DeliverCommand);
    q := OtherMoves(q, DeliverCommand);
    q := FirstMoves(q, CallbackMoves(Ok, 0));
    q := OtherMoves(q, CallbackMoves(Ok, 0));
  }

  lemma BothInsert(p: Overlapping, id: Id) returns (q: Overlapping)
    requires OverlappingReaches(p) && p.other == p.s.callback == Inserting(id, false)
    requires p.s.streams == map[] && p.s.workers == map[]
    ensures OverlappingReaches(q) && q.s.callback == Counting(id, 0) && q.other == Counting(id, 1)
    ensures q.s.streams == map[id := 1]
    ensures var w := Worker(id, false, NotSpawned, 0, 0, 0, false, []); q.s.workers == map[0 := w, 1 := w]
  {
    hide OverlappingReaches, HandlerStep, WorkerStep, Deliver;
    q := FirstMoves(p, CallbackMoves(Ok, 0));
    q := OtherMoves(q, CallbackMoves(Ok, 1));
  }

  lemma BothSpawn(p: Overlapping, id: Id) returns (q: Overlapping)
    requires OverlappingReaches(p) && p.s.callback == Counting(id, 0) && p.other == Counting(id, 1)
    requires var w := Worker(id, false, NotSpawned, 0, 0, 0, false, []); p.s.workers == map[0 := w, 1 := w]
    ensures OverlappingReaches(q) && q.s.streams == p.s.streams
    ensures var w := Worker(id, false, Extracting, 0, 0, 0, false, []); q.s.workers == map[0 := w, 1 := w]
  {
    hide OverlappingReaches;
    q := FirstSpawns(p, id);
    q := OtherSpawns(q, id);
  }

  lemma FirstSpawns(p: Overlapping, id: Id) returns (q: Overlapping)
    requires OverlappingReaches(p) && p.s.callback == Counting(id, 0) && 0 in p.s.workers && 2 !in p.s.workers
    ensures OverlappingReaches(q) && q.s.streams == p.s.streams && q.other == p.other
    ensures q.s.workers == p.s.workers[0 := p.s.workers[0].(phase := Extracting)]
  {
    hide OverlappingReaches, HandlerStep, WorkerStep, Deliver, Write;
    q := FirstMoves(p, CallbackMoves(Ok, 2));
    q := FirstMoves(q, CallbackMoves(Ok, 2));
    q := FirstMoves(q, CallbackMoves(Ok, 2));
  }

  lemma OtherSpawns(p: Overlapping, id: Id) returns (q: Overlapping)
    requires OverlappingReaches(p) && p.other == Counting(id, 1) && 1 in p.s.workers && 2 !in p.s.workers
    ensures OverlappingReaches(q) && q.s.streams == p.s.streams
    ensures q.s.workers == p.s.workers[1 := p.s.workers[1].(phase := Extracting)]
  {
    hide OverlappingReaches, HandlerStep, WorkerStep, Deliver, Write;
    q := OtherMoves(p, CallbackMoves(Ok, 2));
    q := OtherMoves(q, CallbackMoves(Ok, 2));
    q := OtherMoves(q, CallbackMoves(Ok, 2));
  }
}
