/**
The WebSocket hub (internal/api/ws/hub.go): its event loop, the broadcast queue and the two pumps of
every client, as one system of atomic steps.

Serving one broadcast is not atomic: the loop visits the clients one at a time, in any order, while
their write pumps go on consuming.
*/
module Hub {
  import opened Options

  const BROADCAST_CAPACITY := 256
  const SEND_CAPACITY := 64

  /** A marshalled event; `stream` is what unmarshalling yields, nothing if it fails. */
  datatype Message = Message(stream: Option<string>, payload: nat)

  datatype Reader = Reading | Unregistering | Gone

  datatype Client = Client(
    filter: string,
    since: nat,
    inMap: bool,
    buffer: seq<Message>,
    consumed: seq<Message>,
    closes: nat,
    pumpDone: bool,
    reader: Reader)

  datatype Loop = Selecting | Serving(message: Message, remaining: set<nat>)

  /** `log` is every message the loop has taken up, `published` every message handed to the hub. */
  datatype System = System(
    clients: map<nat, Client>,
    loop: Loop,
    queue: seq<Message>,
    published: seq<Message>,
    log: seq<Message>,
    gauge: int,
    registers: nat,
    unregisters: nat,
    panicked: bool)

  predicate Wants(filter: string, m: Message) {
    filter == "" || m.stream.None? || m.stream.value == filter
  }

  function Wanted(filter: string, log: seq<Message>): seq<Message> {
    if log == [] then []
    else
      Wanted(filter, log[..|log| - 1])
      + if Wants(filter, log[|log| - 1]) then [log[|log| - 1]] else []
  }

  datatype Action =
    | Broadcast(message: Message)
    | Register(c: nat, filter: string)
    | ReadFails(c: nat)
    | Unregister(c: nat)
    | TakeBroadcast
    | Visit(c: nat)
    | EndVisits
    | Consume(c: nat, failed: bool)
    | PumpEnds(c: nat)

  predicate Enabled(s: System, a: Action) {
    match a
    case Broadcast(_) => |s.queue| < BROADCAST_CAPACITY
    case Register(c, _) => s.loop.Selecting? && c !in s.clients
    case ReadFails(c) => c in s.clients && s.clients[c].reader.Reading?
    case Unregister(c) => s.loop.Selecting? && c in s.clients && s.clients[c].reader.Unregistering?
    case TakeBroadcast => s.loop.Selecting? && s.queue != []
    case Visit(c) => s.loop.Serving? && c in s.loop.remaining && c in s.clients
    case EndVisits => s.loop.Serving? && s.loop.remaining == {}
    case Consume(c, _) => c in s.clients && !s.clients[c].pumpDone && s.clients[c].buffer != []
    case PumpEnds(c) => c in s.clients && s.clients[c].buffer == [] && s.clients[c].closes > 0
  }

  /** delete(h.clients, client); close(client.send) */
  function Drop(k: Client): Client {
    k.(inMap := false, closes := k.closes + 1)
  }

  /** The body of the delivery loop for one client. */
  function Offer(k: Client, m: Message): Client {
    if !Wants(k.filter, m) then k
    else if |k.buffer| < SEND_CAPACITY then k.(buffer := k.buffer + [m])
    else Drop(k)
  }

  /** The write pump takes the oldest message; it ends if the write fails. */
  function Pumped(k: Client, failed: bool): Client
    requires k.buffer != []
  {
    k.(buffer := k.buffer[1..], consumed := k.consumed + [k.buffer[0]], pumpDone := failed)
  }

  function Act(s: System, a: Action): System
    requires Enabled(s, a)
  {
    match a
    case Broadcast(m) => s.(queue := s.queue + [m], published := s.published + [m])
    case Register(c, filter) =>
      s.(clients := s.clients[c := Client(filter, |s.log|, true, [], [], 0, false, Reading)],
         gauge := s.gauge + 1, registers := s.registers + 1)
    case ReadFails(c) => s.(clients := s.clients[c := s.clients[c].(reader := Unregistering)])
    case Unregister(c) =>
      var k := s.clients[c].(reader := Gone);
      s.(clients := s.clients[c := if k.inMap then Drop(k) else k],
         panicked := s.panicked || (k.inMap && k.closes > 0),
         gauge := s.gauge - 1, unregisters := s.unregisters + 1)
    case TakeBroadcast =>
      s.(loop := Serving(s.queue[0], set c | c in s.clients && s.clients[c].inMap),
         queue := s.queue[1..], log := s.log + [s.queue[0]])
    case Visit(c) =>
      var k := s.clients[c];
      s.(clients := s.clients[c := Offer(k, s.loop.message)],
         loop := s.loop.(remaining := s.loop.remaining - {c}),
         panicked := s.panicked || (Wants(k.filter, s.loop.message) && k.closes > 0))
    case EndVisits => s.(loop := Selecting)
    case Consume(c, failed) =>
      s.(clients := s.clients[c := Pumped(s.clients[c], failed)])
    case PumpEnds(c) => s.(clients := s.clients[c := s.clients[c].(pumpDone := true)])
  }

  ghost predicate Run(ss: seq<System>, acts: seq<Action>) {
    && |ss| == |acts| + 1
    && ss[0] == System(map[], Selecting, [], [], [], 0, 0, 0, false)
    && forall i :: 0 <= i < |acts| ==> Enabled(ss[i], acts[i]) && ss[i + 1] == Act(ss[i], acts[i])
  }

  // ---- what a client has got ----

  function Got(k: Client): seq<Message> {
    k.consumed + k.buffer
  }

  /** The messages the loop is done with, as far as client c is concerned. */
  function Served(loop: Loop, log: seq<Message>, c: nat): seq<Message> {
    if loop.Serving? && c in loop.remaining && log != [] then log[..|log| - 1] else log
  }

  /** While in the map: everything wanted since registration.  After: a gap-free prefix of it. */
  ghost predicate Delivered(k: Client, served: seq<Message>, log: seq<Message>) {
    && k.since <= |served| <= |log|
    && |k.buffer| <= SEND_CAPACITY
    && (k.inMap ==> k.closes == 0 && Got(k) == Wanted(k.filter, served[k.since..]))
    && (!k.inMap ==> k.closes == 1 && Got(k) <= Wanted(k.filter, log[k.since..]))
    && (k.reader.Gone? ==> !k.inMap)
  }

  ghost predicate Invariant(s: System) {
    && (forall c :: c in s.clients ==> Delivered(s.clients[c], Served(s.loop, s.log, c), s.log))
    && (s.loop.Serving? ==> s.log != [] && s.loop.message == s.log[|s.log| - 1])
    && (s.loop.Serving? ==> forall c :: c in s.loop.remaining ==> c in s.clients && s.clients[c].inMap)
    && s.published == s.log + s.queue
    && |s.queue| <= BROADCAST_CAPACITY
    && s.gauge == s.registers - s.unregisters
    && !s.panicked
  }

  lemma WantedSnoc(filter: string, log: seq<Message>, m: Message)
    ensures Wanted(filter, log + [m]) == Wanted(filter, log) + if Wants(filter, m) then [m] else []
  {
    assert (log + [m])[..|log|] == log;
  }

  /** A longer log only extends what is wanted. */
  lemma LogGrows(k: Client, log: seq<Message>, m: Message)
    requires Delivered(k, log, log)
    ensures Delivered(k, if k.inMap then log else log + [m], log + [m])
  {
    assert (log + [m])[k.since..] == log[k.since..] + [m];
    WantedSnoc(k.filter, log[k.since..], m);
  }

  lemma Offered(k: Client, served: seq<Message>, m: Message)
    requires Delivered(k, served, served + [m]) && k.inMap
    ensures Delivered(Offer(k, m), served + [m], served + [m])
  {
    assert (served + [m])[k.since..] == served[k.since..] + [m];
    WantedSnoc(k.filter, served[k.since..], m);
    assert k.consumed + (k.buffer + [m]) == Got(k) + [m];
  }

  lemma VisitKeeps(s: System, c: nat)
    requires Enabled(s, Visit(c)) && Invariant(s)
    ensures Invariant(Act(s, Visit(c)))
  {
    hide Delivered, Offer, Wants;
    var s' := Act(s, Visit(c));
    var served := Served(s.loop, s.log, c);
    assert s.log == served + [s.loop.message];
    assert Delivered(s.clients[c], served, s.log);
    Offered(s.clients[c], served, s.loop.message);
    OpenInMap(s.clients[c], served, s.log);
    forall d | d in s'.clients ensures Delivered(s'.clients[d], Served(s'.loop, s'.log, d), s'.log) {
      if d != c {
        assert Served(s'.loop, s'.log, d) == Served(s.loop, s.log, d);
        assert Delivered(s.clients[d], Served(s.loop, s.log, d), s.log);
      }
    }
  }

  lemma OpenInMap(k: Client, served: seq<Message>, log: seq<Message>)
    requires Delivered(k, served, log)
    ensures (k.inMap <==> k.closes == 0) && (k.reader.Gone? ==> !k.inMap)
  {
  }

  lemma TakeKeeps(s: System)
    requires Enabled(s, TakeBroadcast) && Invariant(s)
    ensures Invariant(Act(s, TakeBroadcast))
  {
    hide Wanted;
    var s', m := Act(s, TakeBroadcast), s.queue[0];
    forall c | c in s'.clients ensures Delivered(s'.clients[c], Served(s'.loop, s'.log, c), s'.log) {
      assert Delivered(s.clients[c], Served(s.loop, s.log, c), s.log);
      LogGrows(s.clients[c], s.log, m);
      assert s'.log[..|s'.log| - 1] == s.log;
    }
  }

  /** Consuming moves a message from buffer to pump; dropping closes what was open.  Neither changes
      what the client has got. */
  lemma StillDelivered(k: Client, k': Client, served: seq<Message>, log: seq<Message>)
    requires Delivered(k, served, log) && served <= log
    requires k'.filter == k.filter && k'.since == k.since && Got(k') == Got(k) && |k'.buffer| <= |k.buffer|
    requires (k'.inMap == k.inMap && k'.closes == k.closes) || (k.inMap && !k'.inMap && k'.closes == k.closes + 1)
    requires k'.reader.Gone? ==> !k'.inMap
    ensures Delivered(k', served, log)
  {
    if k.inMap && !k'.inMap {
      WantedPrefix(k.filter, served[k.since..], log[k.since..]);
    }
  }

  lemma {:induction false} WantedPrefix(filter: string, a: seq<Message>, b: seq<Message>)
    requires a <= b
    ensures Wanted(filter, a) <= Wanted(filter, b)
    decreases |b|
  {
    if |a| < |b| {
      WantedPrefix(filter, a, b[..|b| - 1]);
    } else {
      assert a == b;
    }
  }

  /** Replacing one client, with neither the log nor the loop moving. */
  lemma ReplaceKeeps(s: System, c: nat, k': Client)
    requires Invariant(s) && c in s.clients
    requires var k := s.clients[c];
      && k'.filter == k.filter && k'.since == k.since && Got(k') == Got(k) && |k'.buffer| <= |k.buffer|
      && ((k'.inMap == k.inMap && k'.closes == k.closes)
          || (s.loop.Selecting? && k.inMap && !k'.inMap && k'.closes == k.closes + 1))
      && (k'.reader.Gone? ==> !k'.inMap)
    ensures Invariant(s.(clients := s.clients[c := k']))
  {
    hide Delivered, Got;
    var s' := s.(clients := s.clients[c := k']);
    assert Delivered(s.clients[c], Served(s.loop, s.log, c), s.log);
    StillDelivered(s.clients[c], k', Served(s.loop, s.log, c), s.log);
    forall d | d in s'.clients ensures Delivered(s'.clients[d], Served(s'.loop, s'.log, d), s'.log) {
      assert Served(s'.loop, s'.log, d) == Served(s.loop, s.log, d);
      assert Delivered(s.clients[d], Served(s.loop, s.log, d), s.log);
    }
  }

  lemma PumpedGot(k: Client, failed: bool)
    requires k.buffer != []
    ensures var k' := Pumped(k, failed);
      && Got(k') == Got(k) && |k'.buffer| <= |k.buffer|
      && k'.filter == k.filter && k'.since == k.since && k'.inMap == k.inMap && k'.closes == k.closes && k'.reader == k.reader
  {
    assert [k.buffer[0]] + k.buffer[1..] == k.buffer;
  }

  lemma ConsumeKeeps(s: System, c: nat, failed: bool)
    requires Enabled(s, Consume(c, failed)) && Invariant(s)
    ensures Invariant(Act(s, Consume(c, failed)))
  {
    hide Delivered, Served;
    OpenInMap(s.clients[c], Served(s.loop, s.log, c), s.log);
    PumpedGot(s.clients[c], failed);
    hide Pumped, Got;
    ReplaceKeeps(s, c, Pumped(s.clients[c], failed));
  }

  lemma SignOffKeeps(s: System, c: nat)
    requires Enabled(s, Unregister(c)) && Invariant(s)
    ensures Invariant(Act(s, Unregister(c)))
  {
    var k, k' := s.clients[c], Act(s, Unregister(c)).clients[c];
    OpenInMap(k, Served(s.loop, s.log, c), s.log);
    hide Delivered, Served;
    ReplaceKeeps(s, c, k');
  }

  lemma PumpKeeps(s: System, a: Action, c: nat)
    requires Enabled(s, a) && Invariant(s) && (a == ReadFails(c) || a == PumpEnds(c))
    ensures Invariant(Act(s, a))
  {
    var k, k' := s.clients[c], Act(s, a).clients[c];
    assert Delivered(k, Served(s.loop, s.log, c), s.log);
    hide Delivered, Served;
    ReplaceKeeps(s, c, k');
  }

  lemma ActKeepsInvariant(s: System, a: Action)
    requires Enabled(s, a) && Invariant(s)
    ensures Invariant(Act(s, a))
  {
    hide Delivered;
    match a
    case Visit(c) => VisitKeeps(s, c);
    case TakeBroadcast => TakeKeeps(s);
    case ReadFails(c) => PumpKeeps(s, a, c);
    case PumpEnds(c) => PumpKeeps(s, a, c);
    case Unregister(c) => SignOffKeeps(s, c);
    case Consume(c, failed) => ConsumeKeeps(s, c, failed);
    case Register(c, filter) => RegisterKeeps(s, c, filter);
    case Broadcast(_) =>
    case EndVisits =>
  }

  lemma RegisterKeeps(s: System, c: nat, filter: string)
    requires Enabled(s, Register(c, filter)) && Invariant(s)
    ensures Invariant(Act(s, Register(c, filter)))
  {
    var s' := Act(s, Register(c, filter));
    assert s.log[|s.log|..] == [];
    assert Delivered(s'.clients[c], s'.log, s'.log);
    hide Delivered;
  }

  lemma {:induction false} RunKeepsInvariant(ss: seq<System>, acts: seq<Action>, n: nat)
    requires Run(ss, acts) && n < |ss|
    ensures Invariant(ss[n])
  {
    hide Act, Enabled, Delivered;
    if n > 0 {
      RunKeepsInvariant(ss, acts, n - 1);
      ActKeepsInvariant(ss[n - 1], acts[n - 1]);
    }
  }

  /** In every reachable state: what a client has consumed plus its buffer is exactly the broadcasts it
      wants since it registered while it is in the map, and a gap-free prefix of them afterwards. */
  lemma ClientDelivery(ss: seq<System>, acts: seq<Action>, n: nat, c: nat)
    requires Run(ss, acts) && n < |ss| && c in ss[n].clients
    ensures var s, k := ss[n], ss[n].clients[c];
      && k.since <= |Served(s.loop, s.log, c)| <= |s.log|
      && (k.inMap ==> k.consumed + k.buffer == Wanted(k.filter, Served(s.loop, s.log, c)[k.since..]))
      && (!k.inMap ==> k.consumed + k.buffer <= Wanted(k.filter, s.log[k.since..]))
  {
    hide Act, Enabled;
    RunKeepsInvariant(ss, acts, n);
    assert Delivered(ss[n].clients[c], Served(ss[n].loop, ss[n].log, c), ss[n].log);
  }

  /** A message is for a client that asked for no stream in particular or for the message's own; one whose
      stream is unknown is for everybody. */
  predicate Concerns(filter: string, m: Message) {
    filter == "" || m.stream == None || m.stream == Some(filter)
  }

  /** How often m occurs. */
  function CountIn(log: seq<Message>, m: Message): nat {
    if log == [] then 0 else CountIn(log[..|log| - 1], m) + if log[|log| - 1] == m then 1 else 0
  }

  lemma {:induction false} WantedCounts(filter: string, log: seq<Message>, m: Message)
    ensures CountIn(Wanted(filter, log), m) == if Concerns(filter, m) then CountIn(log, m) else 0
    ensures filter == "" ==> Wanted(filter, log) == log
  {
    if log != [] {
      var p, x := log[..|log| - 1], log[|log| - 1];
      assert log == p + [x];
      WantedCounts(filter, p, m);
      WantedSnoc(filter, p, x);
      CountSnoc(Wanted(filter, p), x, m);
      CountSnoc(p, x, m);
      WantsIsConcerns(filter, x);
      hide *;
      assert Wanted(filter, p) + [] == Wanted(filter, p);
    }
  }

  lemma WantsIsConcerns(filter: string, m: Message)
    ensures Wants(filter, m) <==> Concerns(filter, m)
    ensures filter == "" ==> Concerns(filter, m)
  {
  }

  lemma CountSnoc(log: seq<Message>, x: Message, m: Message)
    ensures CountIn(log + [x], m) == CountIn(log, m) + if x == m then 1 else 0
  {
    assert (log + [x])[..|log|] == log;
  }

  /** In the map a client has got each message as often as it was served since the client registered, if
      it concerns the client, and not at all otherwise; without a filter it has got just what was served.
      Out of the map too it has got nothing that does not concern it. */
  lemma FilterHolds(ss: seq<System>, acts: seq<Action>, n: nat, c: nat, m: Message)
    requires Run(ss, acts) && n < |ss| && c in ss[n].clients
    ensures var s, k := ss[n], ss[n].clients[c]; var served := Served(s.loop, s.log, c);
      && k.since <= |served|
      && (k.inMap ==>
            && CountIn(k.consumed + k.buffer, m) == (if Concerns(k.filter, m) then CountIn(served[k.since..], m) else 0)
            && (k.filter == "" ==> k.consumed + k.buffer == served[k.since..]))
      && (CountIn(k.consumed + k.buffer, m) > 0 ==> Concerns(k.filter, m))
  {
    hide Act, Enabled, Wanted, CountIn, Concerns;
    ClientDelivery(ss, acts, n, c);
    var s, k := ss[n], ss[n].clients[c];
    if k.inMap {
      WantedCounts(k.filter, Served(s.loop, s.log, c)[k.since..], m);
    } else {
      WantedCounts(k.filter, s.log[k.since..], m);
      PrefixCounts(k.consumed + k.buffer, Wanted(k.filter, s.log[k.since..]), m);
    }
  }

  lemma {:induction false} PrefixCounts(a: seq<Message>, b: seq<Message>, m: Message)
    requires a <= b
    ensures CountIn(a, m) <= CountIn(b, m)
    decreases |b|
  {
    if |a| < |b| {
      PrefixCounts(a, b[..|b| - 1], m);
    } else {
      assert a == b;
    }
  }

  /** The client signs off, or is served a message it wants with its buffer full. */
  predicate Departs(s: System, a: Action, c: nat) {
    && c in s.clients && s.clients[c].inMap
    && (|| (a == Unregister(c) && s.loop.Selecting?)
        || (a == Visit(c) && s.loop.Serving? && Wants(s.clients[c].filter, s.loop.message)
            && |s.clients[c].buffer| == SEND_CAPACITY))
  }

  /** A client out of the map either was before, or has just departed; what it has got stays. */
  lemma OutOfMap(s: System, a: Action, c: nat)
    requires Enabled(s, a) && Invariant(s) && c in Act(s, a).clients && !Act(s, a).clients[c].inMap
    ensures c in s.clients && (s.clients[c].inMap ==> Departs(s, a, c))
    ensures var k, k' := s.clients[c], Act(s, a).clients[c];
      Got(k') == Got(k) && k'.filter == k.filter && k'.since == k.since
    ensures s.log <= Act(s, a).log
  {
    if c in s.clients {
      assert Delivered(s.clients[c], Served(s.loop, s.log, c), s.log);
      if a.Consume? && a.c == c {
        PumpedGot(s.clients[c], a.failed);
      }
    }
    hide Wants, Wanted, Delivered, Served, Pumped;
  }

  /** Where the prefix ends.  A client out of the map has departed once: it has got exactly what it wants
      up to its own sign-off, or up to the first wanted message that met a full buffer. */
  lemma {:induction false} DepartedDelivery(ss: seq<System>, acts: seq<Action>, n: nat, c: nat) returns (i: nat)
    requires Run(ss, acts) && n < |ss| && c in ss[n].clients && !ss[n].clients[c].inMap
    ensures i < n && Departs(ss[i], acts[i], c) && ss[i].log <= ss[n].log
    ensures var s := ss[i]; c in s.clients && (s.loop.Serving? ==>
      acts[i] == Visit(c) && |s.clients[c].buffer| == 64 && Concerns(s.clients[c].filter, s.loop.message))
    ensures ss[i].loop.Selecting? ==> acts[i] == Unregister(c)
    ensures forall j :: i < j <= n ==> c in ss[j].clients && !ss[j].clients[c].inMap
    ensures var s, k := ss[i], ss[n].clients[c];
      && k.since <= |s.log| && (s.loop.Serving? ==> k.since < |s.log| && s.log[|s.log| - 1] == s.loop.message)
      && k.consumed + k.buffer
         == Wanted(k.filter, (if s.loop.Serving? then s.log[..|s.log| - 1] else s.log)[k.since..])
  {
    hide Act, Enabled, Departs, Delivered, Wanted;
    assert n > 0;
    var s, a := ss[n - 1], acts[n - 1];
    RunKeepsInvariant(ss, acts, n - 1);
    OutOfMap(s, a, c);
    if s.clients[c].inMap {
      i := n - 1;
      AtDeparture(s, a, c);
      DepartsWhen(s, a, c);
    } else {
      i := DepartedDelivery(ss, acts, n - 1, c);
    }
  }

  lemma DepartsWhen(s: System, a: Action, c: nat)
    requires Departs(s, a, c)
    ensures if s.loop.Serving? then
              a == Visit(c) && |s.clients[c].buffer| == 64 && Concerns(s.clients[c].filter, s.loop.message)
            else a == Unregister(c)
  {
  }

  lemma AtDeparture(s: System, a: Action, c: nat)
    requires Enabled(s, a) && Invariant(s) && Departs(s, a, c)
    ensures var k := s.clients[c];
      && k.since <= |s.log| && (s.loop.Serving? ==> k.since < |s.log| && s.log[|s.log| - 1] == s.loop.message)
      && Got(k) == Wanted(k.filter, (if s.loop.Serving? then s.log[..|s.log| - 1] else s.log)[k.since..])
  {
    assert Delivered(s.clients[c], Served(s.loop, s.log, c), s.log);
    hide Wanted;
  }

  /** No send channel is closed twice or sent to after closing; a client is in the map exactly while its
      channel is open; messages are taken up in the order they were handed in, none lost. */
  lemma ChannelsAreSafe(ss: seq<System>, acts: seq<Action>, n: nat)
    requires Run(ss, acts) && n < |ss|
    ensures var s := ss[n];
      && !s.panicked
      && s.published == s.log + s.queue
      && (forall m :: Enabled(s, Broadcast(m)) <==> |s.queue| <= 255)
      && forall c :: c in s.clients ==> s.clients[c].closes <= 1 && (s.clients[c].inMap <==> s.clients[c].closes == 0)
  {
    hide Act;
    RunKeepsInvariant(ss, acts, n);
    var s := ss[n];
    assert forall c :: c in s.clients ==> Delivered(s.clients[c], Served(s.loop, s.log, c), s.log);
  }

  /** After a failed write the client gets nothing more to its connection. */
  lemma {:induction false} FailedWriteIsLast(ss: seq<System>, acts: seq<Action>, i: nat, n: nat, c: nat)
    requires Run(ss, acts) && i < n < |ss| && acts[i] == Consume(c, true)
    ensures c in ss[n].clients && ss[n].clients[c].pumpDone
    ensures ss[n].clients[c].consumed == ss[i + 1].clients[c].consumed
    decreases n
  {
    hide Act, Enabled;
    if i + 1 == n {
      FailedWrite(ss[i], c);
    } else {
      FailedWriteIsLast(ss, acts, i, n - 1, c);
      DonePumpStays(ss[n - 1], acts[n - 1], c);
    }
  }

  lemma FailedWrite(s: System, c: nat)
    requires Enabled(s, Consume(c, true))
    ensures c in Act(s, Consume(c, true)).clients && Act(s, Consume(c, true)).clients[c].pumpDone
  {
  }

  lemma DonePumpStays(s: System, a: Action, c: nat)
    requires Enabled(s, a) && c in s.clients && s.clients[c].pumpDone
    ensures c in Act(s, a).clients && Act(s, a).clients[c].pumpDone
    ensures Act(s, a).clients[c].consumed == s.clients[c].consumed
  {
    hide Wants;
  }

  // ---- the connection gauge ----

  ghost function Departed(clients: map<nat, Client>): set<nat> {
    set c | c in clients && clients[c].reader.Gone?
  }

  ghost predicate Counted(s: System) {
    s.registers == |s.clients| && s.unregisters == |Departed(s.clients)|
  }

  lemma RegisterCounts(s: System, c: nat, filter: string)
    requires Enabled(s, Register(c, filter)) && Counted(s)
    ensures Counted(Act(s, Register(c, filter)))
  {
    var s' := Act(s, Register(c, filter));
    assert s'.clients.Keys == s.clients.Keys + {c};
    assert |s'.clients.Keys| == |s'.clients| && |s.clients.Keys| == |s.clients|;
    assert Departed(s'.clients) == Departed(s.clients);
  }

  lemma UnregisterCounts(s: System, c: nat)
    requires Enabled(s, Unregister(c)) && Counted(s)
    ensures Counted(Act(s, Unregister(c)))
  {
    var s' := Act(s, Unregister(c));
    assert Departed(s'.clients) == Departed(s.clients) + {c};
    SameSize(s.clients, c, s'.clients[c]);
  }

  lemma ActCounts(s: System, a: Action)
    requires Enabled(s, a) && Counted(s)
    ensures Counted(Act(s, a))
  {
    hide Offer, Wants, Departed;
    match a
    case Register(c, filter) => RegisterCounts(s, c, filter);
    case Unregister(c) => UnregisterCounts(s, c);
    case Visit(c) => VisitCounts(s, c);
    case ReadFails(c) => ReplaceCounts(s.clients, c, Act(s, a).clients[c]);
    case Consume(c, _) => ReplaceCounts(s.clients, c, Act(s, a).clients[c]);
    case PumpEnds(c) => ReplaceCounts(s.clients, c, Act(s, a).clients[c]);
    case _ =>
  }

  lemma SameSize(clients: map<nat, Client>, c: nat, k: Client)
    requires c in clients
    ensures |clients[c := k]| == |clients|
  {
    assert clients[c := k].Keys == clients.Keys;
    assert |clients.Keys| == |clients| && |clients[c := k].Keys| == |clients[c := k]|;
  }

  lemma ReplaceCounts(clients: map<nat, Client>, c: nat, k: Client)
    requires c in clients && (k.reader.Gone? <==> clients[c].reader.Gone?)
    ensures |clients[c := k]| == |clients| && Departed(clients[c := k]) == Departed(clients)
  {
    SameSize(clients, c, k);
  }

  lemma VisitCounts(s: System, c: nat)
    requires Enabled(s, Visit(c)) && Counted(s)
    ensures Counted(Act(s, Visit(c)))
  {
    ReplaceCounts(s.clients, c, Offer(s.clients[c], s.loop.message));
  }

  /** The gauge is registers minus unregisters: the clients whose read pump has not signed off, whether
      or not the hub has evicted them. */
  lemma {:induction false} GaugeCountsConnections(ss: seq<System>, acts: seq<Action>, n: nat)
    requires Run(ss, acts) && n < |ss|
    ensures Counted(ss[n]) && ss[n].gauge == |ss[n].clients| - |Departed(ss[n].clients)|
  {
    hide Act, Enabled, Delivered, Departed;
    RunKeepsInvariant(ss, acts, n);
    if n > 0 {
      GaugeCountsConnections(ss, acts, n - 1);
      ActCounts(ss[n - 1], acts[n - 1]);
    } else {
      NobodyDeparted();
    }
  }

  lemma NobodyDeparted()
    ensures Departed(map[]) == {}
  {
  }
}
