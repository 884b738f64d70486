/**
What a request achieves: from the handlers of internal/api/handlers/streams.go through the command queue
and the ingestor's callback to the ingestion goroutine (internal/ingest/manager.go).
*/
module Requests {
  import opened Lifecycle

  // ---- one request, access by access ----

  predicate MovesHandler(a: Action, h: nat) {
    a.HandlerMoves? && a.h == h
  }

  /** Step j is the handler's next one after step i, and turns out as c says. */
  predicate NextMove(acts: seq<Action>, h: nat, i: nat, j: nat, c: Choice) {
    && i < j < |acts| && acts[j] == HandlerMoves(h, c)
    && forall k :: i < k < j ==> !MovesHandler(acts[k], h)
  }

  /** A request waits where it is until its handler moves. */
  lemma {:induction false} HandlerWaits(ss: seq<System>, acts: seq<Action>, h: nat, i: nat, j: nat)
    requires Run(ss, acts) && i <= j < |ss| && h in ss[i].handlers
    requires forall k :: i <= k < j ==> !MovesHandler(acts[k], h)
    ensures h in ss[j].handlers && ss[j].handlers[h] == ss[i].handlers[h]
    decreases j - i
  {
    hide Act, Enabled;
    if i < j {
      HandlerWaits(ss, acts, h, i, j - 1);
      OthersLeaveHandler(ss[j - 1], acts[j - 1], h);
    }
  }

  lemma OthersLeaveHandler(s: System, a: Action, h: nat)
    requires Enabled(s, a) && !MovesHandler(a, h) && h in s.handlers
    ensures h in Act(s, a).handlers && Act(s, a).handlers[h] == s.handlers[h]
  {
    hide HandlerMove, NextCallback, CallbackWorkers, WorkerMove, Write;
  }

  /** At step i the handler is at the given access. */
  predicate HandlerAt(ss: seq<System>, acts: seq<Action>, h: nat, i: nat, pc: Handler) {
    i < |acts| && i < |ss| && MovesHandler(acts[i], h) && h in ss[i].handlers && ss[i].handlers[h] == pc
  }

  /** A handler that goes on to another access is found there at its next step. */
  lemma NextIsAt(ss: seq<System>, acts: seq<Action>, h: nat, i: nat, j: nat, c: Choice, pc: Handler)
    requires Run(ss, acts) && i < |acts| && NextMove(acts, h, i, j, c)
    requires h in ss[i + 1].handlers && ss[i + 1].handlers[h] == pc
    ensures HandlerAt(ss, acts, h, j, pc)
  {
    hide Act, Enabled, Initial;
    HandlerWaits(ss, acts, h, i + 1, j);
  }

  lemma HandlerActs(ss: seq<System>, acts: seq<Action>, h: nat, i: nat)
    requires Run(ss, acts) && i < |acts| && MovesHandler(acts[i], h)
    ensures h in ss[i].handlers && ss[i + 1] == HandlerStep(ss[i], h, acts[i].c)
  {
    hide Initial, HandlerStep, CallbackStep, WorkerStep, Deliver;
  }

  /** A stop request for a stream that exists publishes the stop command, if the broker takes it, and then
      marks the row stopped either way. */
  lemma StopPublishes(ss: seq<System>, acts: seq<Action>, h: nat, id: Id, i: nat, p: nat, c: Choice)
    requires Run(ss, acts) && HandlerAt(ss, acts, h, i, StopRead(id)) && acts[i].c != Fail && id in ss[i].db
    requires NextMove(acts, h, i, p, c)
    ensures HandlerAt(ss, acts, h, p, StopPublish(id))
    ensures ss[p + 1].queue == ss[p].queue + if c == Ok then [StopCommand(id)] else []
    ensures forall q: nat, c' :: NextMove(acts, h, p, q, c') && c' != Fail ==>
      ss[q + 1].db == (if id in ss[q].db then ss[q].db[id := Stopped] else ss[q].db) && h !in ss[q + 1].handlers
  {
    hide Act, Enabled, Initial;
    HandlerActs(ss, acts, h, i);
    NextIsAt(ss, acts, h, i, p, c, StopPublish(id));
    HandlerActs(ss, acts, h, p);
    forall q: nat, c' | NextMove(acts, h, p, q, c')
      ensures HandlerAt(ss, acts, h, q, StopWrite(id)) && ss[q + 1] == HandlerStep(ss[q], h, c')
    {
      NextIsAt(ss, acts, h, p, q, c', StopWrite(id));
      HandlerActs(ss, acts, h, q);
    }
  }

  /** A delete request for a stream marked running publishes the stop command, if the broker takes it, and
      then deletes the row either way. */
  lemma DeletePublishes(ss: seq<System>, acts: seq<Action>, h: nat, id: Id, i: nat, p: nat, c: Choice)
    requires Run(ss, acts) && HandlerAt(ss, acts, h, i, DeleteRead(id)) && acts[i].c != Fail
    requires id in ss[i].db && ss[i].db[id] == Running
    requires NextMove(acts, h, i, p, c)
    ensures HandlerAt(ss, acts, h, p, DeletePublish(id))
    ensures ss[p + 1].queue == ss[p].queue + if c == Ok then [StopCommand(id)] else []
    ensures forall q: nat, c' :: NextMove(acts, h, p, q, c') && c' != Fail ==>
      ss[q + 1].db == ss[q].db - {id} && h !in ss[q + 1].handlers
  {
    hide Act, Enabled, Initial;
    HandlerActs(ss, acts, h, i);
    NextIsAt(ss, acts, h, i, p, c, DeletePublish(id));
    HandlerActs(ss, acts, h, p);
    forall q: nat, c' | NextMove(acts, h, p, q, c')
      ensures HandlerAt(ss, acts, h, q, DeleteRow(id)) && ss[q + 1] == HandlerStep(ss[q], h, c')
    {
      NextIsAt(ss, acts, h, p, q, c', DeleteRow(id));
      HandlerActs(ss, acts, h, q);
    }
  }

  /** A stop request for a stream that does not exist is over and changes nothing; so does a failed read or
      write of any request. */
  lemma RequestFails(ss: seq<System>, acts: seq<Action>, h: nat, i: nat, pc: Handler)
    requires Run(ss, acts) && HandlerAt(ss, acts, h, i, pc)
    requires (pc.StopRead? && pc.id !in ss[i].db)
      || (acts[i].c == Fail && (pc.StartRead? || pc.StartWrite? || pc.StopRead? || pc.StopWrite? || pc.DeleteRead? || pc.DeleteRow?))
    ensures ss[i + 1] == ss[i].(handlers := ss[i].handlers - {h})
  {
    hide Act, Enabled, Initial;
    HandlerActs(ss, acts, h, i);
  }

  /** A delete request for any other stream only deletes the row. */
  lemma DeleteOfIdle(ss: seq<System>, acts: seq<Action>, h: nat, id: Id, i: nat, q: nat, c: Choice)
    requires Run(ss, acts) && HandlerAt(ss, acts, h, i, DeleteRead(id)) && acts[i].c != Fail
    requires id in ss[i].db ==> ss[i].db[id] != Running
    requires NextMove(acts, h, i, q, c) && c != Fail
    ensures ss[q + 1].db == ss[q].db - {id} && ss[q + 1].queue == ss[q].queue && h !in ss[q + 1].handlers
  {
    hide CallbackStep, WorkerStep, Deliver, Initial;
    NextIsAt(ss, acts, h, i, q, c, DeleteRow(id));
  }

  /** A start request for a stream that exists and is not marked running marks it starting, then publishes
      the start command for it; if the publish fails, it marks it failed. */
  lemma StartPublishes(ss: seq<System>, acts: seq<Action>, h: nat, id: Id, yt: bool, i: nat, w: nat, c: Choice)
    requires Run(ss, acts) && HandlerAt(ss, acts, h, i, StartRead(id, yt)) && acts[i].c != Fail
    requires id in ss[i].db && ss[i].db[id] != Running
    requires NextMove(acts, h, i, w, c) && c != Fail
    ensures ss[w + 1].db == if id in ss[w].db then ss[w].db[id := Starting] else ss[w].db
    ensures forall p: nat :: NextMove(acts, h, w, p, Ok) ==>
      ss[p + 1].queue == ss[p].queue + [StartCommand(id, yt)] && h !in ss[p + 1].handlers
    ensures forall p: nat, q: nat, c' :: NextMove(acts, h, w, p, Fail) && NextMove(acts, h, p, q, c') && c' != Fail ==>
      ss[q + 1].db == (if id in ss[q].db then ss[q].db[id := Failed] else ss[q].db) && h !in ss[q + 1].handlers
  {
    hide Act, Enabled, Initial;
    HandlerActs(ss, acts, h, i);
    NextIsAt(ss, acts, h, i, w, c, StartWrite(id, yt));
    HandlerActs(ss, acts, h, w);
    forall p: nat, c' | NextMove(acts, h, w, p, c')
      ensures HandlerAt(ss, acts, h, p, StartPublish(id, yt)) && ss[p + 1] == HandlerStep(ss[p], h, c')
    {
      NextIsAt(ss, acts, h, w, p, c', StartPublish(id, yt));
      HandlerActs(ss, acts, h, p);
    }
    forall p: nat, q: nat, c' | NextMove(acts, h, w, p, Fail) && NextMove(acts, h, p, q, c')
      ensures HandlerAt(ss, acts, h, q, StartUndo(id)) && ss[q + 1] == HandlerStep(ss[q], h, c')
    {
      assert ss[p + 1] == HandlerStep(ss[p], h, Fail);
      NextIsAt(ss, acts, h, p, q, c', StartUndo(id));
      HandlerActs(ss, acts, h, q);
    }
  }

  /** A start request that finds the stream running or missing is over and changes nothing. */
  lemma StartRejected(ss: seq<System>, acts: seq<Action>, h: nat, id: Id, yt: bool, i: nat)
    requires Run(ss, acts) && HandlerAt(ss, acts, h, i, StartRead(id, yt))
    requires id in ss[i].db ==> ss[i].db[id] == Running
    ensures ss[i + 1] == ss[i].(handlers := ss[i].handlers - {h})
  {
    hide CallbackStep, WorkerStep, Deliver, Initial;
  }

  // ---- the queue ----

  function Deliveries(acts: seq<Action>, i: nat): nat
    requires i <= |acts|
  {
    if i == 0 then 0 else Deliveries(acts, i - 1) + if acts[i - 1].DeliverCommand? then 1 else 0
  }

  lemma QueueMoves(s: System, a: Action)
    requires Enabled(s, a)
    ensures if a.DeliverCommand? then s.queue != [] && Act(s, a).queue == s.queue[1..] else s.queue <= Act(s, a).queue
  {
    hide HandlerMove, NextCallback, CallbackWorkers, WorkerMove, Write;
  }

  /** Commands stay in order: the one at position k comes up after k deliveries. */
  lemma {:induction false} StaysQueued(ss: seq<System>, acts: seq<Action>, p: nat, i: nat, k: nat)
    requires Run(ss, acts) && p <= i < |ss| && k < |ss[p].queue|
    requires Deliveries(acts, i) <= Deliveries(acts, p) + k
    ensures Deliveries(acts, p) <= Deliveries(acts, i)
    ensures var passed := Deliveries(acts, i) - Deliveries(acts, p);
      k - passed < |ss[i].queue| && ss[i].queue[k - passed] == ss[p].queue[k]
    decreases i - p
  {
    hide Act, Enabled, Initial;
    if p < i {
      StaysQueued(ss, acts, p, i - 1, k);
      QueueMoves(ss[i - 1], acts[i - 1]);
    }
  }

  /** Step d delivers the command that was last in the queue after step p. */
  predicate DeliversLast(ss: seq<System>, acts: seq<Action>, p: nat, d: nat) {
    && p < d < |acts| && |ss| == |acts| + 1 && ss[p + 1].queue != []
    && acts[d].DeliverCommand? && Deliveries(acts, d) == Deliveries(acts, p + 1) + |ss[p + 1].queue| - 1
  }

  lemma DeliveredInTurn(ss: seq<System>, acts: seq<Action>, p: nat, d: nat)
    requires Run(ss, acts) && DeliversLast(ss, acts, p, d)
    ensures var q := ss[p + 1].queue; ss[d].queue != [] && ss[d].queue[0] == q[|q| - 1]
    ensures ss[d + 1] == Deliver(ss[d]) && ss[d].callback.Idle?
  {
    hide Initial, HandlerStep, CallbackStep, WorkerStep, Deliver;
    StaysQueued(ss, acts, p + 1, d, |ss[p + 1].queue| - 1);
  }

  // ---- the callback ----

  /** Step l is the callback's first own step after step d. */
  predicate CallbackNext(acts: seq<Action>, d: nat, l: nat) {
    && d < l < |acts| && acts[l].CallbackMoves?
    && forall k :: d < k < l ==> !acts[k].CallbackMoves?
  }

  lemma {:induction false} CallbackWaits(ss: seq<System>, acts: seq<Action>, i: nat, j: nat)
    requires Run(ss, acts) && i <= j < |ss| && !ss[i].callback.Idle?
    requires forall k :: i <= k < j ==> !acts[k].CallbackMoves?
    ensures ss[j].callback == ss[i].callback
    decreases j - i
  {
    hide Act, Enabled, Initial;
    if i < j {
      CallbackWaits(ss, acts, i, j - 1);
      OthersLeaveCallback(ss[j - 1], acts[j - 1]);
    }
  }

  lemma OthersLeaveCallback(s: System, a: Action)
    requires Enabled(s, a) && !a.CallbackMoves? && !s.callback.Idle?
    ensures Act(s, a).callback == s.callback
  {
    hide HandlerMove, WorkerMove, Write;
  }

  // ---- a stop takes effect ----

  /** The goroutine is being cancelled or is. */
  predicate Stopping(s: System, g: nat) {
    s.callback == Cancelling(g) || (g in s.workers && s.workers[g].cancelled)
  }

  lemma StaysStopping(s: System, a: Action, g: nat)
    requires Enabled(s, a) && Invariant(s) && Stopping(s, g)
    ensures Stopping(Act(s, a), g)
  {
    InvariantAccounts(s);
    if s.callback == Cancelling(g) {
      CancellingKnown(s);
    }
    if g in s.workers && s.workers[g].cancelled {
      if a.WorkerMoves? {
        MovesOneWorker(s, a, g);
        WorkerMoveStays(s.workers[g], a.c, IsCancelled(s, s.workers[g]), a.partial);
        hide Act, WorkerMove;
      } else {
        OthersKeepWorker(s, a, g);
        hide Act;
      }
    } else if !a.CallbackMoves? {
      OthersLeaveCallback(s, a);
      hide Act;
    }
    hide Invariant;
  }

  lemma {:induction false} StoppedOnceIdle(ss: seq<System>, acts: seq<Action>, i: nat, k: nat, g: nat)
    requires Run(ss, acts) && i <= k < |ss| && Stopping(ss[i], g)
    ensures Stopping(ss[k], g)
    decreases k - i
  {
    hide Act, Enabled, Initial, Invariant, Stopping;
    if i < k {
      StoppedOnceIdle(ss, acts, i, k - 1, g);
      RunKeepsInvariant(ss, acts, k - 1);
      StaysStopping(ss[k - 1], acts[k - 1], g);
    }
  }

  /** When the look-up of a delivered stop command finds the stream in the map, the goroutine registered
      then is cancelled once the callback is idle again. */
  lemma StopCancels(ss: seq<System>, acts: seq<Action>, d: nat, l: nat, k: nat, id: Id) returns (g: nat)
    requires Run(ss, acts) && d < |acts| && acts[d].DeliverCommand? && ss[d].queue[0] == StopCommand(id)
    requires CallbackNext(acts, d, l) && id in ss[l].streams
    requires l < k < |ss| && ss[k].callback.Idle?
    ensures g == ss[l].streams[id] && g in ss[l].workers && ss[l].workers[g].id == id
    ensures g in ss[k].workers && ss[k].workers[g].cancelled
  {
    g := ss[l].streams[id];
    assert ss[d + 1].callback == LookingUp(id) by { LookUpStarts(ss[d], id); }
    CallbackWaits(ss, acts, d + 1, l);
    RunKeepsInvariant(ss, acts, l);
    InvariantAccounts(ss[l]);
    StreamsKnown(ss[l]);
    assert ss[l + 1].callback == Cancelling(g);
    StoppedOnceIdle(ss, acts, l + 1, k, g);
    hide *;
  }

  lemma LookUpStarts(s: System, id: Id)
    requires Enabled(s, DeliverCommand) && s.queue[0] == StopCommand(id)
    ensures Act(s, DeliverCommand).callback == LookingUp(id)
  {
  }

  lemma {:induction false} GivenUpStays(ss: seq<System>, acts: seq<Action>, m: nat, n: nat, g: nat)
    requires Run(ss, acts) && m <= n < |ss|
    requires g in ss[m].workers && IsCancelled(ss[m], ss[m].workers[g]) && GivenUp(ss[m].workers[g])
    ensures g in ss[n].workers && IsCancelled(ss[n], ss[n].workers[g]) && GivenUp(ss[n].workers[g])
    decreases n - m
  {
    hide Act, Enabled, Invariant, IsCancelled, LastResolutionFails, Initial;
    if m < n {
      GivenUpStays(ss, acts, m, n - 1, g);
      RunKeepsInvariant(ss, acts, n - 1);
      ActGivesUp(ss[n - 1], acts[n - 1], g);
    }
  }

  /** How a cancelled goroutine ends: failed if it had given up, or if its last resolution fails after the
      cancellation, and otherwise stopped. */
  lemma CancelledEnds(ss: seq<System>, acts: seq<Action>, m: nat, n: nat, g: nat)
    requires Run(ss, acts) && m <= n < |ss| && g in ss[m].workers && IsCancelled(ss[m], ss[m].workers[g])
    ensures g in ss[n].workers
    ensures ss[n].workers[g].phase.Finished? ==>
      ss[n].workers[g].writes ==
        if GivenUp(ss[m].workers[g]) || exists i :: m <= i < n && LastResolutionFails(ss[i], acts[i], g) then [Failed] else [Stopped]
  {
    hide Act, Enabled, Initial, IsCancelled, LastResolutionFails;
    if GivenUp(ss[m].workers[g]) {
      GivenUpStays(ss, acts, m, n, g);
      if ss[n].workers[g].phase.Finished? {
        FinishedGoroutine(ss, acts, n, g);
      }
    } else {
      CancelledFailsOnlyInResolution(ss, acts, m, n, g);
    }
  }

  /** A stop request, or a delete request that read the status running, has published its command at
      step p. */
  ghost predicate StopRequested(ss: seq<System>, acts: seq<Action>, h: nat, id: Id, i: nat, p: nat)
    requires Run(ss, acts)
  {
    && i < |acts| && NextMove(acts, h, i, p, Ok)
    && acts[i].HandlerMoves? && acts[i].c != Fail && id in ss[i].db
    && (HandlerAt(ss, acts, h, i, StopRead(id)) || (HandlerAt(ss, acts, h, i, DeleteRead(id)) && ss[i].db[id] == Running))
  }

  /** From request to terminal status: the command is delivered in its turn; if the look-up then finds the
      stream in the map, its goroutine is cancelled by the time the callback is idle again, and ends as
      stopped unless it had given up by then or its last resolution fails afterwards. */
  lemma StopTakesEffect(ss: seq<System>, acts: seq<Action>, h: nat, id: Id, i: nat, p: nat, d: nat, l: nat, k: nat, n: nat)
    returns (g: nat)
    requires Run(ss, acts) && StopRequested(ss, acts, h, id, i, p) && DeliversLast(ss, acts, p, d)
    requires CallbackNext(acts, d, l) && id in ss[l].streams
    requires l < k <= n < |ss| && ss[k].callback.Idle?
    ensures g == ss[l].streams[id] && g in ss[k].workers && ss[k].workers[g].cancelled
    ensures g in ss[n].workers
    ensures ss[n].workers[g].phase.Finished? ==>
      ss[n].workers[g].writes ==
        if GivenUp(ss[k].workers[g]) || exists j :: k <= j < n && LastResolutionFails(ss[j], acts[j], g) then [Failed] else [Stopped]
  {
    StopIsQueued(ss, acts, h, id, i, p);
    DeliveredInTurn(ss, acts, p, d);
    hide Run, CallbackNext, LastResolutionFails, GivenUp;
    g := StopCancels(ss, acts, d, l, k, id);
    CancelledEnds(ss, acts, k, n, g);
  }

  lemma StopIsQueued(ss: seq<System>, acts: seq<Action>, h: nat, id: Id, i: nat, p: nat)
    requires Run(ss, acts) && StopRequested(ss, acts, h, id, i, p)
    ensures ss[p + 1].queue == ss[p].queue + [StopCommand(id)]
  {
    hide Initial, Act, Enabled;
    if HandlerAt(ss, acts, h, i, StopRead(id)) {
      StopPublishes(ss, acts, h, id, i, p, Ok);
    } else {
      DeletePublishes(ss, acts, h, id, i, p, Ok);
    }
  }

  // ---- a start takes effect ----

  predicate ResolutionFails(s: System, a: Action, id: Id) {
    a.CallbackMoves? && s.callback.Resolving? && s.callback.id == id && !a.c.Ok?
  }

  /** The callback is between the existence check and the launch of a goroutine for the stream. */
  predicate OnItsWay(s: System, id: Id, yt: bool) {
    match s.callback
    case Resolving(x, y) => x == id && y && yt
    case Inserting(x, y) => x == id && y == yt
    case Counting(x, g) => x == id && Waiting(s, g, id, yt)
    case MarkingRunning(x, g) => x == id && Waiting(s, g, id, yt)
    case Spawning(x, g) => x == id && Waiting(s, g, id, yt)
    case _ => false
  }

  predicate Waiting(s: System, g: nat, id: Id, yt: bool) {
    g in s.workers && s.workers[g].id == id && s.workers[g].youtube == yt && s.workers[g].phase.NotSpawned?
  }

  /** The callback is done and the stream's goroutine has started on its first attempt. */
  ghost predicate Launched(s: System, id: Id, yt: bool) {
    && s.callback.Idle? && id in s.streams && s.streams[id] in s.workers
    && var w := s.workers[s.streams[id]]; w.id == id && w.youtube == yt && w.phase.Extracting? && w.attempt == 0
  }

  lemma GoesOn(s: System, a: Action, id: Id, yt: bool)
    requires Enabled(s, a) && Invariant(s) && OnItsWay(s, id, yt)
    ensures OnItsWay(Act(s, a), id, yt) || ResolutionFails(s, a, id) || Launched(Act(s, a), id, yt)
  {
    InvariantAccounts(s);
    if a.CallbackMoves? {
      CallbackGoesOn(s, a, id, yt);
    } else {
      OthersLeaveCallback(s, a);
      if s.callback.Counting? || s.callback.MarkingRunning? || s.callback.Spawning? {
        StillWaiting(s, a, s.callback.g, id, yt);
      }
      hide Act, Invariant;
    }
  }

  lemma StillWaiting(s: System, a: Action, g: nat, id: Id, yt: bool)
    requires Enabled(s, a) && !a.CallbackMoves? && InStep(s) && Waiting(s, g, id, yt)
    ensures Waiting(Act(s, a), g, id, yt)
  {
    if a.WorkerMoves? {
      MovesOneWorker(s, a, g);
      WorkerMoveStays(s.workers[g], a.c, IsCancelled(s, s.workers[g]), a.partial);
      hide Act, WorkerMove;
    }
    hide HandlerMove, InStep, Write;
  }

  lemma CallbackGoesOn(s: System, a: Action, id: Id, yt: bool)
    requires Enabled(s, a) && InStep(s) && AllAccounted(s) && OnItsWay(s, id, yt) && a.CallbackMoves?
    ensures OnItsWay(Act(s, a), id, yt) || ResolutionFails(s, a, id) || Launched(Act(s, a), id, yt)
  {
    if s.callback.Spawning? {
      Launch(s, a, id, yt);
      hide Act, OnItsWay, Launched;
    } else {
      hide InStep, AllAccounted, Write, Launched;
    }
  }

  lemma Launch(s: System, a: Action, id: Id, yt: bool)
    requires Enabled(s, a) && InStep(s) && AllAccounted(s) && OnItsWay(s, id, yt) && a.CallbackMoves? && s.callback.Spawning?
    ensures Launched(Act(s, a), id, yt)
  {
    CallbackHolds(s, s.callback.g);
    assert Accounted(s.workers[s.callback.g]);
    hide InStep, AllAccounted, Accounted, Write;
  }

  /** Between l and k the callback has found the URL of the stream unresolvable. */
  ghost predicate Unresolved(ss: seq<System>, acts: seq<Action>, l: nat, k: nat, id: Id)
    requires k <= |acts| && k <= |ss|
  {
    exists j :: l <= j < k && ResolutionFails(ss[j], acts[j], id)
  }

  lemma {:induction false} WayTo(ss: seq<System>, acts: seq<Action>, l: nat, k: nat, id: Id, yt: bool)
    requires Run(ss, acts) && l < k < |ss| && OnItsWay(ss[l], id, yt)
    requires forall j :: l < j < k ==> !ss[j].callback.Idle?
    ensures if Unresolved(ss, acts, l, k, id) then ss[k].callback == MarkingError(id) || NotLaunched(ss[k - 1], ss[k], id)
            else OnItsWay(ss[k], id, yt) || Launched(ss[k], id, yt)
    decreases k - l
  {
    hide Act, Enabled, Initial, Invariant, OnItsWay, ResolutionFails, Launched;
    var s, a := ss[k - 1], acts[k - 1];
    RunKeepsInvariant(ss, acts, k - 1);
    if l < k - 1 {
      WayTo(ss, acts, l, k - 1, id, yt);
      BothIdle(ss[k - 2], s, id, yt);
    }
    if Unresolved(ss, acts, l, k - 1, id) {
      ErrorGoesOn(s, a, id);
    } else {
      GoesOn(s, a, id, yt);
      FailureMarks(s, a, id, yt);
    }
  }

  /** The stream's row has just been marked failed, and the map does not know the stream. */
  predicate NotLaunched(s: System, s': System, id: Id) {
    && s'.callback.Idle? && s'.db == (if id in s.db then s.db[id := Failed] else s.db)
    && id !in s'.streams && s'.workers == s.workers
  }

  lemma BothIdle(s: System, s': System, id: Id, yt: bool)
    ensures Launched(s', id, yt) || NotLaunched(s, s', id) ==> s'.callback.Idle?
  {
  }

  lemma ErrorGoesOn(s: System, a: Action, id: Id)
    requires Enabled(s, a) && Invariant(s) && s.callback == MarkingError(id)
    ensures Act(s, a).callback == MarkingError(id) || NotLaunched(s, Act(s, a), id)
  {
    InvariantAccounts(s);
    StartsFresh(s);
    assert Starts(s.callback, id);
    if !a.CallbackMoves? {
      OthersLeaveCallback(s, a);
    }
    hide Invariant, HandlerMove, WorkerMove;
  }

  lemma FailureMarks(s: System, a: Action, id: Id, yt: bool)
    requires Enabled(s, a) && OnItsWay(s, id, yt)
    ensures ResolutionFails(s, a, id) ==> Act(s, a).callback == MarkingError(id) && yt
    ensures !ResolutionFails(s, a, id) ==> Act(s, a).callback != MarkingError(id)
  {
    if !a.CallbackMoves? {
      OthersLeaveCallback(s, a);
    }
    hide HandlerMove, WorkerMove, Write;
  }

  /** When the check of a delivered start command does not find the stream in the map, then once the
      callback is idle again the stream's goroutine is at its first attempt, unless resolving the URL has
      failed: then there is no goroutine and the row has been marked failed.  Only YouTube streams are
      resolved.  When the check finds the stream, nothing but the refusal happens. */
  lemma StartTakesEffect(ss: seq<System>, acts: seq<Action>, d: nat, l: nat, k: nat, id: Id, yt: bool)
    requires Run(ss, acts) && d < |acts| && acts[d].DeliverCommand? && ss[d].queue[0] == StartCommand(id, yt)
    requires CallbackNext(acts, d, l) && l < k < |ss|
    requires ss[k].callback.Idle? && forall j :: l < j < k ==> !ss[j].callback.Idle?
    ensures id !in ss[l].streams ==>
      if Unresolved(ss, acts, l, k, id) then yt && NotLaunched(ss[k - 1], ss[k], id) else Launched(ss[k], id, yt)
    ensures id in ss[l].streams ==>
      k == l + 1 && ss[k] == ss[l].(callback := Idle, refused := ss[k].refused)
  {
    assert ss[d + 1].callback == Checking(id, yt) by { CheckStarts(ss[d], id, yt); }
    CallbackWaits(ss, acts, d + 1, l);
    CheckDecides(ss[l], acts[l], id, yt);
    assert !ResolutionFails(ss[l], acts[l], id);
    hide Act, Enabled, Initial, OnItsWay, ResolutionFails, NotLaunched;
    if id !in ss[l].streams {
      StillOnItsWay(ss, acts, l + 1, k, id, yt);
      WayTo(ss, acts, l + 1, k, id, yt);
      assert Unresolved(ss, acts, l, k, id) <==> Unresolved(ss, acts, l + 1, k, id);
      if j :| l + 1 <= j < k && ResolutionFails(ss[j], acts[j], id) {
        if !yt {
          OrdinaryStreamsResolve(ss, acts, l + 1, j, id);
        }
      }
    } else {
      assert ss[l + 1].callback.Idle?;
    }
  }

  lemma StillOnItsWay(ss: seq<System>, acts: seq<Action>, l: nat, k: nat, id: Id, yt: bool)
    requires Run(ss, acts) && l <= k < |ss| && OnItsWay(ss[l], id, yt) && ss[k].callback.Idle?
    ensures l < k && !OnItsWay(ss[k], id, yt)
  {
  }

  /** A stream other than YouTube is not resolved. */
  lemma {:induction false} OrdinaryStreamsResolve(ss: seq<System>, acts: seq<Action>, l: nat, j: nat, id: Id)
    requires Run(ss, acts) && l <= j < |acts| && OnItsWay(ss[l], id, false)
    requires forall i :: l <= i <= j ==> !ss[i].callback.Idle?
    ensures OnItsWay(ss[j], id, false) && !ResolutionFails(ss[j], acts[j], id)
    decreases j - l
  {
    hide Act, Enabled, Initial, Invariant;
    if l < j {
      OrdinaryStreamsResolve(ss, acts, l, j - 1, id);
      RunKeepsInvariant(ss, acts, j - 1);
      GoesOn(ss[j - 1], acts[j - 1], id, false);
    }
  }

  lemma CheckStarts(s: System, id: Id, yt: bool)
    requires Enabled(s, DeliverCommand) && s.queue[0] == StartCommand(id, yt)
    ensures Act(s, DeliverCommand).callback == Checking(id, yt)
  {
  }

  lemma CheckDecides(s: System, a: Action, id: Id, yt: bool)
    requires Enabled(s, a) && a.CallbackMoves? && s.callback == Checking(id, yt)
    ensures id !in s.streams ==> OnItsWay(Act(s, a), id, yt)
    ensures id in s.streams ==> Act(s, a) == s.(callback := Idle, refused := Act(s, a).refused)
  {
  }

  // ---- a shutdown takes effect ----

  lemma {:induction false} ShutdownStays(ss: seq<System>, acts: seq<Action>, m: nat, n: nat)
    requires Run(ss, acts) && m < n < |ss| && acts[m] == Shutdown
    ensures ss[n].shutdown
    decreases n
  {
    hide HandlerMove, NextCallback, CallbackWorkers, WorkerMove, Write, Initial;
    if m < n - 1 {
      ShutdownStays(ss, acts, m, n - 1);
    }
  }

  /** After a shutdown every goroutine ends as a cancelled one does, whoever started it and when. */
  lemma ShutdownTakesEffect(ss: seq<System>, acts: seq<Action>, m: nat, k: nat, n: nat, g: nat)
    requires Run(ss, acts) && m < k <= n < |ss| && acts[m] == Shutdown && g in ss[k].workers
    ensures g in ss[n].workers
    ensures ss[n].workers[g].phase.Finished? ==>
      ss[n].workers[g].writes ==
        if GivenUp(ss[k].workers[g]) || exists i :: k <= i < n && LastResolutionFails(ss[i], acts[i], g) then [Failed] else [Stopped]
  {
    ShutdownStays(ss, acts, m, k);
    hide Run, LastResolutionFails, GivenUp;
    CancelledEnds(ss, acts, k, n, g);
  }

  // ---- nobody is cancelled without cause ----

  /** A stop command for the stream has been delivered before step n. */
  ghost predicate StopDelivered(ss: seq<System>, acts: seq<Action>, n: nat, id: Id)
    requires n <= |acts| && n <= |ss|
  {
    exists d :: 0 <= d < n && acts[d].DeliverCommand? && ss[d].queue != [] && ss[d].queue[0] == StopCommand(id)
  }

  /** The system is shut down exactly if it has been told to. */
  lemma {:induction false} ShutdownExactly(ss: seq<System>, acts: seq<Action>, n: nat)
    requires Run(ss, acts) && n < |ss|
    ensures ss[n].shutdown <==> exists m :: 0 <= m < n && acts[m] == Shutdown
  {
    hide HandlerMove, NextCallback, CallbackWorkers, WorkerMove, Write;
    if n > 0 {
      ShutdownExactly(ss, acts, n - 1);
    }
  }

  /** A goroutine is cancelled only after a stop command for its stream has been delivered. */
  lemma {:induction false} CancelledByStop(ss: seq<System>, acts: seq<Action>, n: nat, g: nat)
    requires Run(ss, acts) && n < |ss| && g in ss[n].workers && ss[n].workers[g].cancelled
    ensures StopDelivered(ss, acts, n, ss[n].workers[g].id)
  {
    hide Act, Enabled, Invariant;
    if n > 0 {
      var s, a := ss[n - 1], acts[n - 1];
      RunKeepsInvariant(ss, acts, n - 1);
      CancelledBefore(s, a, g);
      if g in s.workers && s.workers[g].cancelled {
        CancelledByStop(ss, acts, n - 1, g);
      } else {
        CancellingByStop(ss, acts, n - 1, g);
      }
    }
  }

  lemma CancelledBefore(s: System, a: Action, g: nat)
    requires Enabled(s, a) && Invariant(s) && g in Act(s, a).workers && Act(s, a).workers[g].cancelled
    ensures g in s.workers && Act(s, a).workers[g].id == s.workers[g].id
    ensures s.workers[g].cancelled || s.callback == Cancelling(g)
  {
    match a
    case WorkerMoves(_, _, _) =>
      assert g in s.workers by { SameWorkers(s, a); }
      MovesOneWorker(s, a, g);
      WorkerMoveStays(s.workers[g], a.c, IsCancelled(s, s.workers[g]), a.partial);
      hide Act, Invariant, WorkerMove;
    case CallbackMoves(_, newG) =>
      CallbackCancels(s, newG, g);
      hide Invariant, CallbackWorkers, NextCallback, Write;
    case _ => SameWorkers(s, a);
  }

  lemma SameWorkers(s: System, a: Action)
    requires Enabled(s, a) && !a.CallbackMoves?
    ensures Act(s, a).workers.Keys == s.workers.Keys && (!a.WorkerMoves? ==> Act(s, a).workers == s.workers)
  {
    hide HandlerMove, WorkerMove, Write;
  }

  lemma CallbackCancels(s: System, newG: nat, g: nat)
    requires newG !in s.workers
    ensures var workers := CallbackWorkers(s.callback, s.workers, newG);
      g in workers && workers[g].cancelled ==>
        && g in s.workers && workers[g].id == s.workers[g].id
        && (s.workers[g].cancelled || s.callback == Cancelling(g))
  {
  }

  lemma {:induction false} CancellingByStop(ss: seq<System>, acts: seq<Action>, n: nat, g: nat)
    requires Run(ss, acts) && n < |ss| && ss[n].callback == Cancelling(g) && g in ss[n].workers
    ensures StopDelivered(ss, acts, n, ss[n].workers[g].id)
  {
    hide Act, Enabled, Invariant;
    if n > 0 {
      var s, a := ss[n - 1], acts[n - 1];
      RunKeepsInvariant(ss, acts, n - 1);
      CancellingBefore(s, a, g);
      if s.callback == Cancelling(g) {
        CancellingByStop(ss, acts, n - 1, g);
      } else {
        LookingUpByStop(ss, acts, n - 1, s.workers[g].id);
      }
    }
  }

  lemma CancellingBefore(s: System, a: Action, g: nat)
    requires Enabled(s, a) && Invariant(s) && Act(s, a).callback == Cancelling(g)
    ensures g in s.workers && g in Act(s, a).workers && Act(s, a).workers[g].id == s.workers[g].id
    ensures s.callback == Cancelling(g) || s.callback == LookingUp(s.workers[g].id)
  {
    InvariantAccounts(s);
    if s.callback == Cancelling(g) {
      CancellingKnown(s);
    }
    StreamsKnown(s);
    CancellingComesFrom(s, a, g);
    SameStream(s, a, g);
    hide Invariant, Act;
  }

  lemma CancellingComesFrom(s: System, a: Action, g: nat)
    requires Enabled(s, a) && Act(s, a).callback == Cancelling(g)
    ensures s.callback == Cancelling(g) || (s.callback.LookingUp? && s.callback.id in s.streams && s.streams[s.callback.id] == g)
  {
    hide HandlerMove, Write, WorkerMove, CallbackWorkers;
  }

  lemma {:induction false} LookingUpByStop(ss: seq<System>, acts: seq<Action>, n: nat, id: Id)
    requires Run(ss, acts) && n < |ss| && ss[n].callback == LookingUp(id)
    ensures StopDelivered(ss, acts, n, id)
  {
    hide Act, Enabled, Invariant;
    if n > 0 {
      var s, a := ss[n - 1], acts[n - 1];
      LookingUpBefore(s, a, id);
      if s.callback == LookingUp(id) {
        LookingUpByStop(ss, acts, n - 1, id);
      }
    }
  }

  lemma LookingUpBefore(s: System, a: Action, id: Id)
    requires Enabled(s, a) && Act(s, a).callback == LookingUp(id)
    ensures s.callback == LookingUp(id) || (a.DeliverCommand? && s.queue != [] && s.queue[0] == StopCommand(id))
  {
    hide HandlerMove, Write, WorkerMove, CallbackWorkers;
  }

  /** A command the ingestor does not know is dropped. */
  lemma UnknownIsDropped(ss: seq<System>, acts: seq<Action>, d: nat)
    requires Run(ss, acts) && d < |acts| && acts[d].DeliverCommand? && ss[d].queue[0] == UnknownCommand
    ensures ss[d + 1] == ss[d].(queue := ss[d].queue[1..])
  {
    hide Initial;
  }

  // ---- a cancelled goroutine does not linger ----

  /** It cuts its back-off short at any moment of it. */
  lemma CancelledWaitIsCut(ss: seq<System>, acts: seq<Action>, i: nat, g: nat, partial: nat)
    requires Run(ss, acts) && i < |ss| && g in ss[i].workers
    requires ss[i].workers[g].phase.Waiting? && (ss[i].workers[g].cancelled || ss[i].shutdown)
    requires partial <= Pow2(ss[i].workers[g].attempt)
    ensures var w := ss[i].workers[g];
      Act(ss[i], WorkerMoves(g, Fail, partial)).workers[g] == w.(phase := Writing(Stopped), waited := w.waited + partial)
  {
    hide Run, Pow2;
  }

  predicate PastExtracting(p: Phase) {
    p.CheckingOutcome? || p.Writing? || p.Leaving? || p.Uncounting? || p.Finished?
  }

  lemma WorkerExtractsOnce(w: Worker, c: Choice, partial: nat)
    ensures var w' := WorkerMove(w, c, true, partial);
      && (w'.extractions == w.extractions || (w'.extractions == w.extractions + 1 && PastExtracting(w'.phase)))
      && (PastExtracting(w.phase) ==> PastExtracting(w'.phase) && w'.extractions == w.extractions)
  {
    hide Pow2;
  }

  lemma ActExtractsOnce(s: System, a: Action, g: nat)
    requires Enabled(s, a) && Invariant(s) && g in s.workers && IsCancelled(s, s.workers[g])
    ensures g in Act(s, a).workers && IsCancelled(Act(s, a), Act(s, a).workers[g])
    ensures var w, w' := s.workers[g], Act(s, a).workers[g];
      && (w'.extractions == w.extractions || (w'.extractions == w.extractions + 1 && PastExtracting(w'.phase)))
      && (PastExtracting(w.phase) ==> PastExtracting(w'.phase) && w'.extractions == w.extractions)
  {
    InvariantAccounts(s);
    if a.WorkerMoves? {
      MovesOneWorker(s, a, g);
      WorkerMoveStays(s.workers[g], a.c, IsCancelled(s, s.workers[g]), a.partial);
      WorkerExtractsOnce(s.workers[g], a.c, a.partial);
      hide Act, Invariant, WorkerMove;
    } else {
      hide Invariant;
      OthersKeepWorker(s, a, g);
      OthersExtractNothing(s, a, g);
      hide Act;
    }
  }

  lemma OthersExtractNothing(s: System, a: Action, g: nat)
    requires Enabled(s, a) && !a.WorkerMoves? && g in s.workers
    ensures g in Act(s, a).workers && Act(s, a).workers[g].extractions == s.workers[g].extractions
  {
    hide HandlerMove, NextCallback, Write;
  }

  /** Once cancelled a goroutine begins at most one more extraction, however often its URL is resolved. */
  lemma {:induction false} CancelledExtractsOnce(ss: seq<System>, acts: seq<Action>, m: nat, n: nat, g: nat)
    requires Run(ss, acts) && m <= n < |ss| && g in ss[m].workers && IsCancelled(ss[m], ss[m].workers[g])
    ensures g in ss[n].workers && IsCancelled(ss[n], ss[n].workers[g])
    ensures var w, w' := ss[m].workers[g], ss[n].workers[g];
      w'.extractions == w.extractions || (w'.extractions == w.extractions + 1 && PastExtracting(w'.phase))
    decreases n - m
  {
    hide Act, Enabled, Invariant, IsCancelled, Initial, PastExtracting;
    if m < n {
      CancelledExtractsOnce(ss, acts, m, n - 1, g);
      RunKeepsInvariant(ss, acts, n - 1);
      ActExtractsOnce(ss[n - 1], acts[n - 1], g);
    }
  }

  // ---- a goroutine nobody cancels ----

  /** An extraction ends without error. */
  predicate ExtractionSucceeds(s: System, a: Action, g: nat) {
    a.WorkerMoves? && a.g == g && a.c.Ok? && g in s.workers && s.workers[g].phase.Extracting?
  }

  /** Decided on "stopped", written or not. */
  predicate Satisfied(w: Worker) {
    w.phase == CheckingOutcome(false) || w.phase == Writing(Stopped) || Stopped in w.writes
  }

  lemma WorkerSatisfied(w: Worker, c: Choice, partial: nat)
    requires Accounted(w)
    ensures Satisfied(WorkerMove(w, c, false, partial)) <==> Satisfied(w) || (w.phase.Extracting? && c.Ok?)
  {
    hide Pow2, Verdict;
  }

  lemma ActSatisfies(s: System, a: Action, g: nat)
    requires Enabled(s, a) && Invariant(s) && g in Act(s, a).workers && !IsCancelled(Act(s, a), Act(s, a).workers[g])
    ensures g in s.workers ==> !IsCancelled(s, s.workers[g])
    ensures Satisfied(Act(s, a).workers[g]) <==> (g in s.workers && Satisfied(s.workers[g])) || ExtractionSucceeds(s, a, g)
  {
    if g in s.workers {
      InvariantAccounts(s);
      assert Accounted(s.workers[g]);
      if a.WorkerMoves? {
        WorkerSatisfied(s.workers[g], a.c, a.partial);
        WorkerMoveStays(s.workers[g], a.c, IsCancelled(s, s.workers[g]), a.partial);
        MovesOneWorker(s, a, g);
        hide Act, WorkerMove, Invariant, Accounted;
      } else {
        hide Invariant, Accounted;
        OthersKeepWorker(s, a, g);
        hide Act;
      }
    } else {
      hide Invariant;
      NewIsUnsatisfied(s, a, g);
      hide Act;
    }
  }

  lemma NewIsUnsatisfied(s: System, a: Action, g: nat)
    requires Enabled(s, a) && g !in s.workers && g in Act(s, a).workers
    ensures !Satisfied(Act(s, a).workers[g])
  {
    hide HandlerMove, NextCallback, Write, WorkerMove;
  }

  /** A goroutine nobody has cancelled ends as stopped exactly if one of its extractions ended without
      error, and as failed otherwise. */
  lemma {:induction false} UncancelledEnds(ss: seq<System>, acts: seq<Action>, n: nat, g: nat)
    requires Run(ss, acts) && n < |ss| && g in ss[n].workers && !IsCancelled(ss[n], ss[n].workers[g])
    ensures Satisfied(ss[n].workers[g]) <==> exists i :: 0 <= i < n && ExtractionSucceeds(ss[i], acts[i], g)
    ensures ss[n].workers[g].phase.Finished? ==>
      ss[n].workers[g].writes == if exists i :: 0 <= i < n && ExtractionSucceeds(ss[i], acts[i], g) then [Stopped] else [Failed]
  {
    hide Act, Enabled, Invariant, IsCancelled, ExtractionSucceeds;
    if n > 0 {
      RunKeepsInvariant(ss, acts, n - 1);
      ActSatisfies(ss[n - 1], acts[n - 1], g);
      if g in ss[n - 1].workers {
        UncancelledEnds(ss, acts, n - 1, g);
      } else {
        NotThereYet(ss, acts, n - 1, g);
      }
    }
    if ss[n].workers[g].phase.Finished? {
      FinishedGoroutine(ss, acts, n, g);
    }
  }

  lemma {:induction false} NotThereYet(ss: seq<System>, acts: seq<Action>, n: nat, g: nat)
    requires Run(ss, acts) && n < |ss| && g !in ss[n].workers
    ensures forall i :: 0 <= i <= n && i < |acts| ==> !ExtractionSucceeds(ss[i], acts[i], g)
  {
    hide Act, Enabled, Initial, Invariant;
    if n > 0 {
      RunKeepsInvariant(ss, acts, n - 1);
      if g in ss[n - 1].workers {
        WorkersStay(ss[n - 1], acts[n - 1], g);
      }
      NotThereYet(ss, acts, n - 1, g);
    }
  }

  lemma WorkersStay(s: System, a: Action, g: nat)
    requires Enabled(s, a) && Invariant(s) && g in s.workers
    ensures g in Act(s, a).workers
  {
    InvariantAccounts(s);
    SameStream(s, a, g);
    hide *;
  }
}
