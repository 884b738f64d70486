/**
Frame dispatch to the vision workers (internal/queue/consumer.go, ConsumeFramesWithIndex): a fetch loop
that sends round-robin into one bounded channel per worker, and the workers that drain them, as one
system of atomic steps.

Messages are numbered in the order they are fetched; a redelivered message is a new number.
*/
module Dispatch {
  import opened Arithmetic

  const CHANNEL_CAPACITY := 2

  /** The fetch loop: between fetches, handing out a batch, or returned. */
  datatype Fetcher = Fetching | Sending(batch: seq<nat>) | Returned

  datatype Resolution = Resolution(msg: nat, acked: bool)

  /** One worker goroutine: its channel, the message its handler is running, and what it has resolved. */
  datatype Worker = Worker(channel: seq<nat>, running: seq<nat>, resolved: seq<Resolution>)

  datatype System = System(
    fetcher: Fetcher,
    idx: nat,
    workers: seq<Worker>,
    fetched: nat,
    cancelled: bool,
    closed: seq<nat>,
    abandoned: seq<nat>)

  datatype Action =
    | Fetch(size: nat)
    | FetchFails
    | ObserveDone
    | Send
    | EndBatch
    | Receive(w: nat)
    | Resolve(w: nat, ok: bool)
    | Cancel

  function Numbers(from: nat, n: nat): (r: seq<nat>)
    ensures |r| == n && forall k :: 0 <= k < n ==> r[k] == from + k
  {
    seq(n, k => from + k)
  }

  /** Closing is once per channel: `closed` counts the closes of each. */
  function CloseAll(closed: seq<nat>): (r: seq<nat>)
    ensures |r| == |closed| && forall w :: 0 <= w < |closed| ==> r[w] == closed[w] + 1
  {
    seq(|closed|, w requires 0 <= w < |closed| => closed[w] + 1)
  }

  predicate Enabled(s: System, a: Action) {
    match a
    case Fetch(size) => s.fetcher.Fetching? && size <= |s.workers|
    case FetchFails => s.fetcher.Fetching?
    case ObserveDone => s.cancelled && (s.fetcher.Fetching? || (s.fetcher.Sending? && s.fetcher.batch != []))
    case Send =>
      s.fetcher.Sending? && s.fetcher.batch != [] && |s.workers| > 0
      && |s.workers[s.idx % |s.workers|].channel| < CHANNEL_CAPACITY
    case EndBatch => s.fetcher.Sending? && s.fetcher.batch == []
    case Receive(w) => w < |s.workers| && s.workers[w].running == [] && s.workers[w].channel != []
    case Resolve(w, _) => w < |s.workers| && s.workers[w].running != []
    case Cancel => true
  }

  function Act(s: System, a: Action): System
    requires Enabled(s, a)
  {
    match a
    case Fetch(size) => s.(fetcher := Sending(Numbers(s.fetched, size)), fetched := s.fetched + size)
    case FetchFails => s
    case ObserveDone =>
      s.(fetcher := Returned, closed := CloseAll(s.closed),
         abandoned := if s.fetcher.Sending? then s.fetcher.batch else [])
    case Send =>
      var w := s.idx % |s.workers|;
      var t := s.workers[w];
      s.(fetcher := Sending(s.fetcher.batch[1..]), idx := s.idx + 1,
         workers := s.workers[w := t.(channel := t.channel + [s.fetcher.batch[0]])])
    case EndBatch => s.(fetcher := Fetching)
    case Receive(w) =>
      var t := s.workers[w];
      s.(workers := s.workers[w := t.(channel := t.channel[1..], running := [t.channel[0]])])
    case Resolve(w, ok) =>
      var t := s.workers[w];
      s.(workers := s.workers[w := t.(running := t.running[1..], resolved := t.resolved + [Resolution(t.running[0], ok)])])
    case Cancel => s.(cancelled := true)
  }

  ghost predicate Initial(s: System) {
    && |s.workers| > 0 && |s.closed| == |s.workers|
    && s == System(Fetching, 0, s.workers, 0, false, s.closed, [])
    && forall w :: 0 <= w < |s.workers| ==> s.workers[w] == Worker([], [], []) && s.closed[w] == 0
  }

  ghost predicate Run(ss: seq<System>, acts: seq<Action>) {
    && |ss| == |acts| + 1
    && Initial(ss[0])
    && forall i :: 0 <= i < |acts| ==> Enabled(ss[i], acts[i]) && ss[i + 1] == Act(ss[i], acts[i])
  }

  // ---- who gets what ----

  /** How many of the first idx dispatch positions are congruent to w modulo n. */
  function Share(idx: nat, n: nat, w: nat): nat
    requires n > 0
  {
    if idx == 0 then 0 else Share(idx - 1, n, w) + if (idx - 1) % n == w then 1 else 0
  }

  function Messages(rs: seq<Resolution>): (r: seq<nat>)
    ensures |r| == |rs| && forall k :: 0 <= k < |rs| ==> r[k] == rs[k].msg
  {
    seq(|rs|, k requires 0 <= k < |rs| => rs[k].msg)
  }

  /** Everything worker w has been sent, oldest first. */
  function Received(t: Worker): seq<nat> {
    Messages(t.resolved) + t.running + t.channel
  }

  /** The k-th message sent to worker w is dispatch position k * n + w. */
  ghost predicate InTurn(t: Worker, w: nat, n: nat, idx: nat)
    requires n > 0
  {
    && |Received(t)| == Share(idx, n, w)
    && (forall k :: 0 <= k < |Received(t)| ==> Received(t)[k] == k * n + w)
    && |t.running| <= 1
    && |t.channel| <= CHANNEL_CAPACITY
  }

  /** Messages not yet sent out: the rest of the batch, or what cancellation abandoned. */
  function Unsent(s: System): seq<nat> {
    if s.fetcher.Sending? then s.fetcher.batch else s.abandoned
  }

  ghost predicate Invariant(s: System) {
    && |s.workers| > 0 && |s.closed| == |s.workers|
    && s.idx + |Unsent(s)| == s.fetched
    && (forall k :: 0 <= k < |Unsent(s)| ==> Unsent(s)[k] == s.idx + k)
    && |Unsent(s)| <= |s.workers|
    && (!s.fetcher.Returned? ==> s.abandoned == [])
    && (s.fetcher.Returned? ==> s.cancelled)
    && (forall w :: 0 <= w < |s.workers| ==>
          && InTurn(s.workers[w], w, |s.workers|, s.idx)
          && s.closed[w] == if s.fetcher.Returned? then 1 else 0)
  }

  lemma {:induction false} ShareOf(idx: nat, n: nat, w: nat)
    requires n > 0 && w < n
    ensures Share(idx, n, w) == Turns(idx, n, w)
  {
    if idx == 0 {
      NoTurns(n, w);
    } else {
      ShareOf(idx - 1, n, w);
      NextTurn(idx - 1, idx, n, w);
      hide Turns;
    }
  }

  /** Whole rounds, and one more for a worker whose turn has come in the current one. */
  function Turns(idx: nat, n: nat, w: nat): nat
    requires n > 0
  {
    idx / n + if w < idx % n then 1 else 0
  }

  lemma NoTurns(n: nat, w: nat)
    requires n > 0
    ensures Turns(0, n, w) == 0
  {
    DivUnique(0, n, 0, 0);
  }

  lemma NextTurn(i: nat, j: nat, n: nat, w: nat)
    requires n > 0 && w < n && j == i + 1
    ensures Turns(j, n, w) == Turns(i, n, w) + if i % n == w then 1 else 0
  {
    NextPosition(i, j, n);
  }

  lemma NextPosition(i: nat, j: nat, n: nat)
    requires n > 0 && j == i + 1
    ensures if i % n == n - 1 then j / n == i / n + 1 && j % n == 0 else j / n == i / n && j % n == i % n + 1
  {
    DivMod(i, n);
    var q, r := i / n, i % n;
    if r == n - 1 {
      Distribute(q, 1, n);
      DivUnique(j, n, q + 1, 0);
    } else {
      DivUnique(j, n, q, r + 1);
    }
  }

  // ---- every step keeps it ----

  lemma SentInTurn(t: Worker, w: nat, n: nat, idx: nat)
    requires n > 0 && InTurn(t, w, n, idx) && idx % n == w && |t.channel| < CHANNEL_CAPACITY
    ensures InTurn(t.(channel := t.channel + [idx]), w, n, idx + 1)
  {
    var t' := t.(channel := t.channel + [idx]);
    assert Received(t') == Received(t) + [idx];
    ShareOf(idx, n, w);
    Position(idx, n);
    hide Received, Messages;
  }

  lemma Position(idx: nat, n: nat)
    requires n > 0
    ensures idx / n * n + idx % n == idx
  {
  }

  lemma SendKeeps(s: System)
    requires Enabled(s, Send) && Invariant(s)
    ensures Invariant(Act(s, Send))
  {
    hide Received;
    var n, s' := |s.workers|, Act(s, Send);
    assert s.idx == s.fetcher.batch[0];
    forall w | 0 <= w < n ensures InTurn(s'.workers[w], w, n, s'.idx) {
      assert InTurn(s.workers[w], w, n, s.idx);
      if w == s.idx % n {
        SentInTurn(s.workers[w], w, n, s.idx);
      }
    }
    hide InTurn;
  }

  /** Receiving and resolving only move messages along the worker's history. */
  lemma ReceivedKept(t: Worker, receive: bool, ok: bool)
    requires if receive then t.channel != [] && t.running == [] else t.running != []
    ensures receive ==> Received(t.(channel := t.channel[1..], running := [t.channel[0]])) == Received(t)
    ensures !receive ==> Received(t.(running := t.running[1..], resolved := t.resolved + [Resolution(t.running[0], ok)])) == Received(t)
  {
    if receive {
      assert [t.channel[0]] + t.channel[1..] == t.channel;
    }
  }

  lemma WorkerKeeps(s: System, a: Action, v: nat)
    requires (a == Receive(v) || a == Resolve(v, true) || a == Resolve(v, false)) && Enabled(s, a) && Invariant(s)
    ensures Invariant(Act(s, a))
  {
    var n, s' := |s.workers|, Act(s, a);
    hide Share, Messages;
    ReceivedKept(s.workers[v], a == Receive(v), a == Resolve(v, true));
    assert Received(s'.workers[v]) == Received(s.workers[v]);
    forall w | 0 <= w < n ensures InTurn(s'.workers[w], w, n, s'.idx) {
      assert InTurn(s.workers[w], w, n, s.idx);
    }
  }

  lemma ActKeepsInvariant(s: System, a: Action)
    requires Enabled(s, a) && Invariant(s)
    ensures Invariant(Act(s, a))
  {
    hide InTurn;
    match a
    case Send => SendKeeps(s);
    case Receive(v) => WorkerKeeps(s, a, v);
    case Resolve(v, _) => WorkerKeeps(s, a, v);
    case _ =>
  }

  lemma InitialInvariant(s: System)
    requires Initial(s)
    ensures Invariant(s)
  {
  }

  lemma {:induction false} RunKeepsInvariant(ss: seq<System>, acts: seq<Action>, i: nat)
    requires Run(ss, acts) && i < |ss|
    ensures Invariant(ss[i])
  {
    hide Act, Enabled, Invariant;
    if i == 0 {
      InitialInvariant(ss[0]);
    } else {
      RunKeepsInvariant(ss, acts, i - 1);
      ActKeepsInvariant(ss[i - 1], acts[i - 1]);
    }
  }

  // ---- conservation ----

  datatype Place =
    | InBatch
    | Abandoned
    | InChannel(w: nat)
    | Handled(w: nat)
    | Resolved(w: nat, acked: bool)

  ghost predicate At(s: System, m: nat, p: Place) {
    match p
    case InBatch => s.fetcher.Sending? && m in s.fetcher.batch
    case Abandoned => m in s.abandoned
    case InChannel(w) => w < |s.workers| && m in s.workers[w].channel
    case Handled(w) => w < |s.workers| && m in s.workers[w].running
    case Resolved(w, acked) => w < |s.workers| && Resolution(m, acked) in s.workers[w].resolved
  }

  /** Where worker w's history has message m: at index m / n, if m is its. */
  lemma OwnIndex(t: Worker, w: nat, n: nat, idx: nat, k: nat)
    requires n > 0 && w < n && InTurn(t, w, n, idx) && k < |Received(t)|
    ensures Received(t)[k] / n == k && Received(t)[k] % n == w && Received(t)[k] < idx
  {
    hide Share;
    ShareOf(idx, n, w);
    DivUnique(k * n + w, n, k, w);
    var m := k * n + w;
    if idx <= m {
      DivMonotone(idx, m, n);
    }
  }

  lemma DivMonotone(a: nat, b: nat, n: nat)
    requires n > 0 && a <= b
    ensures a / n <= b / n && (a / n == b / n ==> a % n <= b % n)
  {
    assert a == n * (a / n) + a % n && b == n * (b / n) + b % n;
    var k := b / n - a / n;
    assert n * k == n * (b / n) - n * (a / n);
    NotNegative(n, k);
  }

  lemma NotNegative(n: int, k: int)
    requires n > 0 && n * k > -n
    ensures k >= 0
  {
  }

  lemma OwnMessage(t: Worker, w: nat, n: nat, idx: nat, m: nat)
    requires n > 0 && w < n && InTurn(t, w, n, idx) && m < idx && m % n == w
    ensures m / n < |Received(t)| && Received(t)[m / n] == m
  {
    hide Share;
    ShareOf(idx, n, w);
    DivMonotone(m, idx, n);
    assert m == m / n * n + m % n;
  }

  /** A place fixes the index in the history, and the other way round. */
  lemma PlaceIndex(t: Worker, m: nat, k: nat)
    requires k < |Received(t)| && Received(t)[k] == m
    ensures var r, c := |t.resolved|, |t.resolved| + |t.running|;
      && (k < r ==> t.resolved[k].msg == m)
      && (r <= k < c ==> t.running[k - r] == m)
      && (c <= k ==> t.channel[k - c] == m)
  {
  }

  ghost predicate WorkerPlace(t: Worker, w: nat, m: nat, p: Place) {
    || (p == InChannel(w) && m in t.channel)
    || (p == Handled(w) && m in t.running)
    || (p.Resolved? && p.w == w && Resolution(m, p.acked) in t.resolved)
  }

  /** Within its worker a message is in one place only. */
  lemma OnePlaceInWorker(t: Worker, w: nat, n: nat, idx: nat, m: nat) returns (p: Place)
    requires n > 0 && w < n && InTurn(t, w, n, idx) && m < idx && m % n == w
    ensures WorkerPlace(t, w, m, p) && forall q :: WorkerPlace(t, w, m, q) ==> q == p
  {
    OwnMessage(t, w, n, idx, m);
    var k, r, c := m / n, |t.resolved|, |t.resolved| + |t.running|;
    PlaceIndex(t, m, k);
    p := if k < r then Resolved(w, t.resolved[k].acked) else if k < c then Handled(w) else InChannel(w);
    assert k < r ==> t.resolved[k] == Resolution(m, t.resolved[k].acked);
    forall q | WorkerPlace(t, w, m, q) ensures q == p {
      var j := HistoryIndex(t, w, m, q);
      OwnIndex(t, w, n, idx, j);
    }
  }

  lemma HistoryIndex(t: Worker, w: nat, m: nat, q: Place) returns (j: nat)
    requires WorkerPlace(t, w, m, q)
    ensures j < |Received(t)| && Received(t)[j] == m
    ensures var r, c := |t.resolved|, |t.resolved| + |t.running|;
      q == if j < r then Resolved(w, t.resolved[j].acked) else if j < c then Handled(w) else InChannel(w)
  {
    if q == InChannel(w) {
      var i :| 0 <= i < |t.channel| && t.channel[i] == m;
      j := |t.resolved| + |t.running| + i;
    } else if q == Handled(w) {
      var i :| 0 <= i < |t.running| && t.running[i] == m;
      j := |t.resolved| + i;
    } else {
      var i :| 0 <= i < |t.resolved| && t.resolved[i] == Resolution(m, q.acked);
      j := i;
      assert Messages(t.resolved)[i] == m;
    }
  }

  lemma WorkerPlaceIsIts(s: System, w: nat, m: nat, p: Place)
    requires Invariant(s) && w < |s.workers| && WorkerPlace(s.workers[w], w, m, p)
    ensures m < s.idx && m % |s.workers| == w
  {
    var j := HistoryIndex(s.workers[w], w, m, p);
    OwnIndex(s.workers[w], w, |s.workers|, s.idx, j);
  }

  /** In every reachable state each fetched message is in exactly one place: the current batch, one
      worker's channel, one running handler, acked, naked, or abandoned at cancellation. */
  lemma Conservation(ss: seq<System>, acts: seq<Action>, i: nat, m: nat) returns (p: Place)
    requires Run(ss, acts) && i < |ss| && m < ss[i].fetched
    ensures At(ss[i], m, p) && forall q :: At(ss[i], m, q) ==> q == p
  {
    hide Act, Enabled;
    RunKeepsInvariant(ss, acts, i);
    var s := ss[i];
    var n := |s.workers|;
    if m >= s.idx {
      p := if s.fetcher.Sending? then InBatch else Abandoned;
      assert Unsent(s)[m - s.idx] == m;
    } else {
      p := OnePlaceInWorker(s.workers[m % n], m % n, n, s.idx, m);
    }
    forall q | At(s, m, q) ensures q == p {
      if !q.InBatch? && !q.Abandoned? {
        assert WorkerPlace(s.workers[q.w], q.w, m, q);
        WorkerPlaceIsIts(s, q.w, m, q);
      } else {
        UnsentIsLate(s, m, q);
      }
    }
  }

  lemma UnsentIsLate(s: System, m: nat, q: Place)
    requires Invariant(s) && At(s, m, q) && (q.InBatch? || q.Abandoned?)
    ensures m >= s.idx && (q.InBatch? <==> s.fetcher.Sending?)
  {
    hide InTurn;
    assert m in Unsent(s);
    var k :| 0 <= k < |Unsent(s)| && Unsent(s)[k] == m;
  }

  /** A message is acked exactly if its handler has returned without error, naked exactly if it has
      returned one. */
  lemma {:induction false} ResolvedByHandler(ss: seq<System>, acts: seq<Action>, i: nat, m: nat, w: nat, ok: bool)
    requires Run(ss, acts) && i < |ss|
    ensures At(ss[i], m, Resolved(w, ok)) <==>
      exists j :: 0 <= j < i && acts[j] == Resolve(w, ok) && w < |ss[j].workers| && ss[j].workers[w].running == [m]
  {
    hide Act, Enabled, Invariant, Received;
    if i > 0 {
      ResolvedByHandler(ss, acts, i - 1, m, w, ok);
      RunKeepsInvariant(ss, acts, i - 1);
      ResolvedStep(ss[i - 1], acts[i - 1], m, w, ok);
    }
  }

  lemma ResolvedStep(s: System, a: Action, m: nat, w: nat, ok: bool)
    requires Enabled(s, a) && Invariant(s)
    ensures At(Act(s, a), m, Resolved(w, ok)) <==>
      At(s, m, Resolved(w, ok)) || (a == Resolve(w, ok) && w < |s.workers| && s.workers[w].running == [m])
  {
    assert w < |s.workers| ==> InTurn(s.workers[w], w, |s.workers|, s.idx);
    hide Received, Share, Messages, Numbers, CloseAll;
  }

  /** Worker w is sent exactly the dispatch positions congruent to w, in order, and runs one handler at a
      time; every channel is closed at most once, and only by a fetch loop that sends no more. */
  lemma RoundRobin(ss: seq<System>, acts: seq<Action>, i: nat, w: nat)
    requires Run(ss, acts) && i < |ss| && w < |ss[i].workers|
    ensures var s := ss[i];
      var r, n := Received(s.workers[w]), |s.workers|;
      && |s.closed| == n
      && |r| == s.idx / n + (if w < s.idx % n then 1 else 0)
      && (forall k :: 0 <= k < |r| ==> r[k] == k * n + w)
      && |s.workers[w].running| <= 1
      && s.closed[w] <= 1 && (s.closed[w] == 1 ==> !Enabled(s, Send))
  {
    hide Act;
    RunKeepsInvariant(ss, acts, i);
    ShareOf(ss[i].idx, |ss[i].workers|, w);
    hide Share;
    assert InTurn(ss[i].workers[w], w, |ss[i].workers|, ss[i].idx);
  }

  // ---- nothing gets stuck ----

  /** Moves a message on: towards a worker, into its handler, out of it, or to the abandoned. */
  predicate MovesMessage(a: Action) {
    a.Send? || a.Receive? || a.Resolve? || a.ObserveDone?
  }

  /** As long as a message is in the batch, a channel or a handler, some message can move on.  Handing out
      waits for a worker with two messages in its channel only, and stops for cancellation. */
  lemma MessagesMoveOn(ss: seq<System>, acts: seq<Action>, i: nat, m: nat)
    requires Run(ss, acts) && i < |ss|
    ensures var s := ss[i]; var n := |s.workers|;
      && n > 0
      && ((exists p :: At(s, m, p) && !p.Abandoned? && !p.Resolved?) ==> exists a :: MovesMessage(a) && Enabled(s, a))
      && (At(s, m, InBatch) ==> (Enabled(s, Send) <==> |s.workers[s.idx % n].channel| <= 1))
      && (At(s, m, InBatch) ==> (Enabled(s, ObserveDone) <==> s.cancelled))
  {
    hide Act;
    RunKeepsInvariant(ss, acts, i);
    var s := ss[i];
    var n := |s.workers|;
    forall w | 0 <= w < n ensures |s.workers[w].channel| <= 2 {
      assert InTurn(s.workers[w], w, n, s.idx);
    }
    if p :| At(s, m, p) && !p.Abandoned? && !p.Resolved? {
      var w := if p.InBatch? then s.idx % n else p.w;
      var a := if s.workers[w].running != [] then Resolve(w, true)
               else if s.workers[w].channel != [] then Receive(w) else Send;
      assert MovesMessage(a) && Enabled(s, a);
    }
  }

  /** The loop has returned only if it was cancelled, and it counts as cancelled exactly from then on. */
  lemma {:induction false} CancelIsKept(ss: seq<System>, acts: seq<Action>, i: nat)
    requires Run(ss, acts) && i < |ss|
    ensures ss[i].cancelled <==> exists j :: 0 <= j < i && acts[j] == Cancel
    ensures ss[i].fetcher.Returned? ==> ss[i].cancelled
  {
    hide Invariant, Numbers, CloseAll;
    if i > 0 {
      CancelIsKept(ss, acts, i - 1);
    }
  }

  // ---- bounded backlog ----

  function Pending(ws: seq<Worker>): nat {
    if ws == [] then 0 else Pending(ws[..|ws| - 1]) + |ws[|ws| - 1].channel| + |ws[|ws| - 1].running|
  }

  function ResolvedCount(ws: seq<Worker>): nat {
    if ws == [] then 0 else ResolvedCount(ws[..|ws| - 1]) + |ws[|ws| - 1].resolved|
  }

  lemma {:induction false} PendingBound(ws: seq<Worker>)
    requires forall w :: 0 <= w < |ws| ==> |ws[w].running| <= 1 && |ws[w].channel| <= CHANNEL_CAPACITY
    ensures Pending(ws) <= 3 * |ws|
  {
    if ws != [] {
      PendingBound(ws[..|ws| - 1]);
    }
  }

  function TotalShare(idx: nat, n: nat, upTo: nat): nat
    requires n > 0
  {
    if upTo == 0 then 0 else TotalShare(idx, n, upTo - 1) + Share(idx, n, upTo - 1)
  }

  lemma {:induction false} TotalShareStep(idx: nat, n: nat, upTo: nat)
    requires n > 0 && upTo <= n && idx > 0
    ensures TotalShare(idx, n, upTo) == TotalShare(idx - 1, n, upTo) + if (idx - 1) % n < upTo then 1 else 0
  {
    if upTo > 0 {
      TotalShareStep(idx, n, upTo - 1);
    }
  }

  /** The shares of all workers add up to what was dispatched. */
  lemma {:induction false} SharesAddUp(idx: nat, n: nat)
    requires n > 0
    ensures TotalShare(idx, n, n) == idx
  {
    if idx > 0 {
      SharesAddUp(idx - 1, n);
      TotalShareStep(idx, n, n);
    } else {
      NoShares(n, n);
    }
  }

  lemma {:induction false} NoShares(n: nat, upTo: nat)
    requires n > 0
    ensures TotalShare(0, n, upTo) == 0
  {
    if upTo > 0 {
      NoShares(n, upTo - 1);
    }
  }

  lemma {:induction false} WorkersAddUp(ws: seq<Worker>, n: nat, idx: nat)
    requires n > 0 && forall w :: 0 <= w < |ws| ==> |Received(ws[w])| == Share(idx, n, w)
    ensures Pending(ws) + ResolvedCount(ws) == TotalShare(idx, n, |ws|)
  {
    hide Share;
    if ws != [] {
      WorkersAddUp(ws[..|ws| - 1], n, idx);
    }
  }

  /** Nothing fetched goes missing from the count, and at most 4n messages are unresolved at any time:
      n in a batch or abandoned, two in each channel, one in each handler. */
  lemma Backlog(ss: seq<System>, acts: seq<Action>, i: nat)
    requires Run(ss, acts) && i < |ss|
    ensures var s := ss[i];
      && s.fetched == ResolvedCount(s.workers) + Pending(s.workers) + |Unsent(s)|
      && s.fetched - ResolvedCount(s.workers) <= 4 * |s.workers|
  {
    hide Act, Enabled, Share;
    RunKeepsInvariant(ss, acts, i);
    var s := ss[i];
    assert forall w :: 0 <= w < |s.workers| ==> InTurn(s.workers[w], w, |s.workers|, s.idx);
    PendingBound(s.workers);
    WorkersAddUp(s.workers, |s.workers|, s.idx);
    SharesAddUp(s.idx, |s.workers|);
  }
}
