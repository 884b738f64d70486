/**
Whole runs of one tracker: any sequence of frames, any stable match, any recognition outcome.
*/
module TrackRuns {
  import opened Geometry
  import opened Nms
  import opened Options
  import opened Tracking

  /** One call: the detections given to `Update`, the match it made, what recognition met. */
  datatype Frame = Frame(dets: seq<Detection>, assign: seq<string>, attempts: seq<Attempt>)

  /** The tracker and everything that has happened to it: events published, names handed out, the last
      clock reading, and the detections of every call. */
  datatype World = World(state: State, events: seq<Event>, created: seq<string>, clock: int, calls: seq<seq<Detection>>)

  const START := World(State(map[], 0), [], [], 0, [])

  /** Clock readings never go back. */
  predicate Monotone(attempts: seq<Attempt>, from: int) {
    && (forall k :: 0 <= k < |attempts| ==> from <= attempts[k].checkAt <= attempts[k].stampAt)
    && (forall k, l :: 0 <= k < l < |attempts| ==> attempts[k].stampAt <= attempts[l].checkAt)
  }

  function LastReading(attempts: seq<Attempt>, from: int): int {
    if attempts == [] then from else attempts[|attempts| - 1].stampAt
  }

  function NewNames(reports: seq<Report>): seq<string> {
    if reports == [] then []
    else
      var last := reports[|reports| - 1];
      NewNames(reports[..|reports| - 1]) + if last.isNew then [last.id] else []
  }

  function ReportsOf(cfg: Config, w: World, f: Frame): seq<Report> {
    Reports(cfg.stream, w.state.nextID, f.assign)
  }

  /** One frame: the update, then recognition over its reports, with stale tracks swept. */
  ghost predicate Step(cfg: Config, interval: int, w: World, f: Frame, w': World) {
    && StableMatch(f.dets, w.state.tracks, f.assign)
    && |f.attempts| == |f.dets|
    && Monotone(f.attempts, w.clock)
    && var mid, reports := Mid(cfg, w.state, f.dets, f.assign), ReportsOf(cfg, w, f);
    && |reports| == |f.attempts|
    && (forall k :: 0 <= k < |reports| ==> reports[k].id in mid.tracks)
    && var (tracks, events) := Recognition(cfg, interval, mid.tracks, reports, f.attempts);
    && w' == World(State(Swept(tracks, cfg.maxAge), mid.nextID), w.events + events, w.created + NewNames(reports),
                   LastReading(f.attempts, w.clock), w.calls + [f.dets])
  }

  ghost predicate Run(cfg: Config, interval: int, ws: seq<World>, fs: seq<Frame>) {
    && |ws| == |fs| + 1
    && ws[0] == START
    && forall i :: 0 <= i < |fs| ==> Step(cfg, interval, ws[i], fs[i], ws[i + 1])
  }

  // ---- reports ----

  lemma {:induction false} ReportSizes(stream: string, nextID: nat, assign: seq<string>)
    ensures |Matches(assign)| + Unmatched(assign) == |assign|
    ensures |News(stream, nextID, assign)| == Unmatched(assign)
  {
    if assign != [] {
      ReportSizes(stream, nextID, assign[..|assign| - 1]);
    }
  }

  lemma {:induction false} ReportNames(stream: string, nextID: nat, assign: seq<string>)
    ensures forall r :: r in Matches(assign) ==> !r.isNew && r.id in Owners(stream, nextID, assign)
    ensures forall r :: r in News(stream, nextID, assign) ==> r.isNew && r.id in Owners(stream, nextID, assign)
  {
    if assign != [] {
      hide TrackId;
      var p := assign[..|assign| - 1];
      ReportNames(stream, nextID, p);
      assert forall x :: x in Owners(stream, nextID, p) ==> x in Owners(stream, nextID, assign);
    }
  }

  lemma {:induction false} ReportOfDetection(stream: string, nextID: nat, assign: seq<string>, i: nat)
    requires i < |assign|
    ensures var r := Report(Owners(stream, nextID, assign)[i], assign[i] == "");
      if assign[i] == "" then r in News(stream, nextID, assign) else r in Matches(assign)
  {
    hide TrackId;
    if i < |assign| - 1 {
      ReportOfDetection(stream, nextID, assign[..|assign| - 1], i);
    }
  }

  /** Each update reports every detection exactly once: as many reports as detections, one for each
      owner, new exactly for the unmatched. */
  lemma ReportsAreOwners(stream: string, nextID: nat, assign: seq<string>)
    ensures var o, reports := Owners(stream, nextID, assign), Reports(stream, nextID, assign);
      && |reports| == |assign|
      && (forall i :: 0 <= i < |assign| ==> Report(o[i], assign[i] == "") in reports)
      && (forall r :: r in reports ==> r.id in o)
  {
    hide Owners, News, Matches, Unmatched;
    ReportSizes(stream, nextID, assign);
    ReportNames(stream, nextID, assign);
    forall i | 0 <= i < |assign|
      ensures Report(Owners(stream, nextID, assign)[i], assign[i] == "") in Reports(stream, nextID, assign)
    {
      ReportOfDetection(stream, nextID, assign, i);
    }
  }

  /** Reports come in the order of the loops: the matched detections first, then the new tracks, each group
      in detection order. */
  lemma {:induction false} ReportOrder(stream: string, nextID: nat, assign: seq<string>) returns (order: seq<nat>)
    ensures |order| == |assign| == |Reports(stream, nextID, assign)|
    ensures forall k :: 0 <= k < |order| ==> order[k] < |assign|
    ensures forall k, l :: 0 <= k < l < |order| ==>
      if (assign[order[k]] == "") == (assign[order[l]] == "") then order[k] < order[l] else assign[order[k]] != ""
    ensures var o, reports := Owners(stream, nextID, assign), Reports(stream, nextID, assign);
      forall k :: 0 <= k < |order| ==> reports[k] == Report(o[order[k]], assign[order[k]] == "")
  {
    var m := GroupOrder(stream, nextID, assign, false);
    var n := GroupOrder(stream, nextID, assign, true);
    ReportSizes(stream, nextID, assign);
    hide Owners, Matches, News, Unmatched;
    order := m + n;
  }

  lemma {:induction false} GroupOrder(stream: string, nextID: nat, assign: seq<string>, isNew: bool) returns (order: seq<nat>)
    ensures |order| == if isNew then |News(stream, nextID, assign)| else |Matches(assign)|
    ensures forall k :: 0 <= k < |order| ==> order[k] < |assign| && (assign[order[k]] == "" <==> isNew)
    ensures forall k, l :: 0 <= k < l < |order| ==> order[k] < order[l]
    ensures forall k :: 0 <= k < |order| ==>
      (if isNew then News(stream, nextID, assign) else Matches(assign))[k] == Report(Owners(stream, nextID, assign)[order[k]], isNew)
  {
    hide TrackId;
    order := [];
    if assign != [] {
      var n := |assign| - 1;
      order := GroupOrder(stream, nextID, assign[..n], isNew);
      if (assign[n] == "") == isNew {
        order := order + [n];
      }
    }
  }

  lemma MidKeys(cfg: Config, s: State, dets: seq<Detection>, assign: seq<string>)
    requires |dets| == |assign|
    ensures forall id :: id in Mid(cfg, s, dets, assign).tracks <==>
      id in s.tracks || id in Owners(cfg.stream, s.nextID, assign)
  {
  }

  /** Nothing but the clock can stop a run: every stable match and every outcome has a next state. */
  lemma StepExists(cfg: Config, interval: int, w: World, f: Frame) returns (w': World)
    requires WellFormed(cfg, w.state)
    requires StableMatch(f.dets, w.state.tracks, f.assign) && |f.attempts| == |f.dets| && Monotone(f.attempts, w.clock)
    ensures Step(cfg, interval, w, f, w')
  {
    hide StableMatch, Recognition, Monotone, Owners;
    MatchLength(f.dets, w.state.tracks, f.assign);
    var mid, reports := Mid(cfg, w.state, f.dets, f.assign), ReportsOf(cfg, w, f);
    ReportsAreOwners(cfg.stream, w.state.nextID, f.assign);
    MidKeys(cfg, w.state, f.dets, f.assign);
    var (tracks, events) := Recognition(cfg, interval, mid.tracks, reports, f.attempts);
    w' := World(State(Swept(tracks, cfg.maxAge), mid.nextID), w.events + events, w.created + NewNames(reports),
                LastReading(f.attempts, w.clock), w.calls + [f.dets]);
  }

  /** Recognition touches nothing but the embedding and its time. */
  predicate SameButRecognition(t: TrackState, u: TrackState) {
    u == t.(embedding := u.embedding, lastRecognized := u.lastRecognized)
  }

  lemma {:induction false} RecognitionKeeps(cfg: Config, interval: int, tracks: map<string, TrackState>,
                                            reports: seq<Report>, attempts: seq<Attempt>)
    requires |attempts| == |reports|
    requires forall k :: 0 <= k < |reports| ==> reports[k].id in tracks
    ensures var m := Recognition(cfg, interval, tracks, reports, attempts).0;
      forall id :: id in tracks ==> SameButRecognition(tracks[id], m[id])
  {
    if reports != [] {
      var n := |reports| - 1;
      RecognitionKeeps(cfg, interval, tracks, reports[..n], attempts[..n]);
    }
  }

  // ---- names ----

  /** After k tracks, the names handed out are numbers 1 to k in order. */
  ghost predicate Numbered(cfg: Config, w: World) {
    && WellFormed(cfg, w.state)
    && |w.created| == w.state.nextID
    && forall k :: 0 <= k < |w.created| ==> w.created[k] == TrackId(cfg.stream, k + 1)
  }

  lemma {:induction false} NewNamesNumbered(cfg: Config, nextID: nat, assign: seq<string>)
    ensures var names := NewNames(News(cfg.stream, nextID, assign));
      && |names| == Unmatched(assign)
      && forall k :: 0 <= k < |names| ==> names[k] == TrackId(cfg.stream, nextID + k + 1)
  {
    hide TrackId;
    if assign != [] {
      var n := |assign| - 1;
      NewNamesNumbered(cfg, nextID, assign[..n]);
      var news := News(cfg.stream, nextID, assign[..n]);
      if assign[n] == "" {
        assert (news + [Report(TrackId(cfg.stream, nextID + Unmatched(assign)), true)])[..|news|] == news;
      } else {
        assert News(cfg.stream, nextID, assign) == news;
      }
    }
  }

  lemma {:induction false} NewNamesConcat(a: seq<Report>, b: seq<Report>)
    requires forall r :: r in a ==> !r.isNew
    ensures NewNames(a + b) == NewNames(b)
    decreases |a| + |b|
  {
    if b != [] {
      assert (a + b)[..|a + b| - 1] == a + b[..|b| - 1];
      NewNamesConcat(a, b[..|b| - 1]);
    } else if a != [] {
      assert a + b == a;
      assert a[..|a| - 1] + [] == a[..|a| - 1];
      NewNamesConcat(a[..|a| - 1], []);
    }
  }

  lemma StepNumbered(cfg: Config, interval: int, w: World, f: Frame, w': World)
    requires Step(cfg, interval, w, f, w') && Numbered(cfg, w)
    ensures Numbered(cfg, w')
  {
    hide StableMatch, Recognition, Monotone, TrackId, Owners, Unmatched, Refreshed, News, Matches, NewNames;
    MatchLength(f.dets, w.state.tracks, f.assign);
    var mid, reports := Mid(cfg, w.state, f.dets, f.assign), ReportsOf(cfg, w, f);
    UpdateWellFormed(cfg, w.state, f.dets, f.assign);
    RecognitionKeeps(cfg, interval, mid.tracks, reports, f.attempts);
    ReportNames(cfg.stream, w.state.nextID, f.assign);
    NewNamesNumbered(cfg, w.state.nextID, f.assign);
    NewNamesConcat(Matches(f.assign), News(cfg.stream, w.state.nextID, f.assign));
  }

  lemma {:induction false} RunNumbered(cfg: Config, interval: int, ws: seq<World>, fs: seq<Frame>, n: nat)
    requires Run(cfg, interval, ws, fs) && n < |ws|
    ensures Numbered(cfg, ws[n])
  {
    hide Step;
    if n > 0 {
      RunNumbered(cfg, interval, ws, fs, n - 1);
      StepNumbered(cfg, interval, ws[n - 1], fs[n - 1], ws[n]);
    }
  }

  /** Over a whole run no track name is handed out twice, deleted tracks included; none is empty; and
      every live track bears one of them. */
  lemma NamesNeverReused(cfg: Config, interval: int, ws: seq<World>, fs: seq<Frame>, n: nat)
    requires Run(cfg, interval, ws, fs) && n < |ws|
    ensures forall i, j :: 0 <= i < j < |ws[n].created| ==> ws[n].created[i] != ws[n].created[j]
    ensures "" !in ws[n].created
    ensures forall id :: id in ws[n].state.tracks ==> id in ws[n].created && ws[n].state.tracks[id].id == id
  {
    RunNumbered(cfg, interval, ws, fs, n);
    var w := ws[n];
    hide TrackId, Step;
    forall i, j | 0 <= i < j < |w.created| ensures w.created[i] != w.created[j] {
      TrackIdInjective(cfg.stream, i + 1, j + 1);
    }
    forall i | 0 <= i < |w.created| ensures w.created[i] != "" {
      TrackIdInjective(cfg.stream, i + 1, i + 1);
    }
    forall id | id in w.state.tracks ensures id in w.created {
      var k :| 1 <= k <= w.state.nextID && id == TrackId(cfg.stream, k);
      assert w.created[k - 1] == id;
    }
  }

  /** Two workers with a tracker each for one stream hand out the same names in the same order, for
      different faces: one has handed out a beginning of what the other has, and they share a name exactly
      if both have opened a track.  Across workers a name does not identify a track. */
  lemma WorkersCollide(a: Config, b: Config, interval: int, ws: seq<World>, fs: seq<Frame>, vs: seq<World>, gs: seq<Frame>,
                       n: nat, m: nat)
    requires a.stream == b.stream
    requires Run(a, interval, ws, fs) && Run(b, interval, vs, gs) && n < |ws| && m < |vs|
    ensures var c, d := ws[n].created, vs[m].created;
      && (c <= d || d <= c)
      && ((exists id :: id in c && id in d) <==> c != [] && d != [])
  {
    RunNumbered(a, interval, ws, fs, n);
    RunNumbered(b, interval, vs, gs, m);
    hide Step, TrackId, WellFormed;
    var c, d := ws[n].created, vs[m].created;
    if c != [] && d != [] {
      assert c[0] == TrackId(a.stream, 0 + 1) == d[0];
      assert c[0] in c && c[0] in d;
    }
  }

  /** Such runs exist: one frame with one face is enough on each worker. */
  lemma FirstFaceRun(cfg: Config, interval: int, d: Detection, a: Attempt) returns (w: World, f: Frame)
    requires 0 <= a.checkAt <= a.stampAt
    ensures Run(cfg, interval, [START, w], [f]) && f.dets == [d] && w.created == [TrackId(cfg.stream, 1)]
  {
    f := Frame([d], [""], [a]);
    assert StableMatch(f.dets, START.state.tracks, f.assign);
    hide StableMatch, TrackId;
    w := StepExists(cfg, interval, START, f);
    StepNumbered(cfg, interval, START, f, w);
    assert w.state.nextID == 1 by {
      hide Recognition, Owners, Refreshed, News, Matches;
      assert f.assign[..0] == [];
      assert Unmatched(f.assign) == 1;
    }
    FirstStepRuns(cfg, interval, f, w);
    hide *;
    assert Numbered(cfg, w);
  }

  // ---- a tie ----

  const LEFT := Detection(Box(0.0, 0.0, 10.0, 10.0), 0.9, LANDMARKS)
  const RIGHT := Detection(Box(6.0, 0.0, 16.0, 10.0), 0.8, LANDMARKS)
  const MIDWAY := Detection(Box(3.0, 0.0, 13.0, 10.0), 0.9, LANDMARKS)

  /** An attempt that stops at an empty crop. */
  const NO_CROP := Attempt(0, false, None, 0, false)

  /** One frame with two faces opens a track for each. */
  lemma TwoFaceRun(cfg: Config, interval: int) returns (w: World, f: Frame)
    requires cfg.maxAge >= 0
    ensures Run(cfg, interval, [START, w], [f]) && f.dets == [LEFT, RIGHT] && w.clock == 0
    ensures WellFormed(cfg, w.state)
    ensures var t, u := TrackId(cfg.stream, 1), TrackId(cfg.stream, 2);
      && t != u && t != "" && u != "" && w.state.tracks.Keys == {t, u}
      && w.state.tracks[t].box == LEFT.box && w.state.tracks[u].box == RIGHT.box
  {
    f := Frame([LEFT, RIGHT], ["", ""], [NO_CROP, NO_CROP]);
    assert StableMatch(f.dets, START.state.tracks, f.assign);
    hide StableMatch, TrackId, Step;
    w := StepExists(cfg, interval, START, f);
    StepNumbered(cfg, interval, START, f, w);
    FirstStepRuns(cfg, interval, f, w);
    assert w.clock == 0 by { StepClock(cfg, interval, START, f, w); }
    TwoTracks(cfg, interval, f, w);
  }

  lemma FirstStepRuns(cfg: Config, interval: int, f: Frame, w: World)
    requires Step(cfg, interval, START, f, w)
    ensures Run(cfg, interval, [START, w], [f])
  {
    hide Step;
    assert [START, w][1] == w;
  }

  lemma StepClock(cfg: Config, interval: int, w: World, f: Frame, w': World)
    requires Step(cfg, interval, w, f, w')
    ensures w'.clock == LastReading(f.attempts, w.clock)
  {
  }

  lemma TwoTracks(cfg: Config, interval: int, f: Frame, w: World)
    requires Step(cfg, interval, START, f, w) && cfg.maxAge >= 0
    requires f.dets == [LEFT, RIGHT] && f.assign == ["", ""]
    ensures var t, u := TrackId(cfg.stream, 1), TrackId(cfg.stream, 2);
      && t != u && t != "" && u != "" && w.state.tracks.Keys == {t, u}
      && w.state.tracks[t].box == LEFT.box && w.state.tracks[u].box == RIGHT.box
  {
    hide Step, TrackId;
    TrackIdInjective(cfg.stream, 1, 2);
    StepAges(cfg, interval, START, f, w);
    OwnersOfTwo(cfg.stream);
    hide Owners;
    var o := Owners(cfg.stream, 0, f.assign);
    IndexOfDistinct(o, 0);
    IndexOfDistinct(o, 1);
    assert w.state.tracks.Keys == {o[0], o[1]};
  }

  lemma OwnersOfTwo(stream: string)
    ensures Owners(stream, 0, ["", ""]) == [TrackId(stream, 1), TrackId(stream, 2)]
  {
    hide TrackId;
    assert ["", ""][..1] == [""] && [""][..0] == [];
    assert Unmatched([""]) == 1 && Unmatched(["", ""]) == 2;
    assert Owners(stream, 0, [""]) == [TrackId(stream, 1)];
  }

  /** The midway face overlaps both tracks alike. */
  lemma MidwayTies(tracks: map<string, TrackState>, t: string, u: string)
    requires t != u && t != "" && u != "" && tracks.Keys == {t, u}
    requires tracks[t].box == LEFT.box && tracks[u].box == RIGHT.box
    ensures StableMatch([MIDWAY], tracks, [t]) && StableMatch([MIDWAY], tracks, [u])
  {
    MidwayOverlaps();
    hide Iou;
    assert IouWith(MIDWAY, tracks[t]) == IouWith(MIDWAY, tracks[u]) > MIN_IOU;
    hide IouWith;
  }

  lemma MidwayOverlaps()
    ensures Iou(MIDWAY.box, LEFT.box) == Iou(MIDWAY.box, RIGHT.box) == 70.0 / 130.0
  {
    var m, a, b := MIDWAY.box, LEFT.box, RIGHT.box;
    assert Span(m.x1, m.x2, a.x1, a.x2) == 7.0 && Span(m.y1, m.y2, a.y1, a.y2) == 10.0;
    assert Span(m.x1, m.x2, b.x1, b.x2) == 7.0 && Span(m.y1, m.y2, b.y1, b.y2) == 10.0;
    hide Span;
    assert Overlap(m, a) == Overlap(m, b) == 70.0 && m.Area() == a.Area() == b.Area() == 100.0;
  }

  /** Two frames whose detections suppression would let through, and a run that reaches a tie: the second
      frame has two stable matches, which leave the tracks in different places. */
  lemma TieAllowsTwoMatches(cfg: Config, interval: int)
    returns (f: Frame, w: World, g: Frame, wg: World, h: Frame, wh: World)
    requires cfg.maxAge >= 0
    ensures Run(cfg, interval, [START, w, wg], [f, g]) && Run(cfg, interval, [START, w, wh], [f, h])
    ensures f.dets == [LEFT, RIGHT] && Greedy(f.dets, 0.4) == f.dets
    ensures g.dets == h.dets == [MIDWAY] && Greedy(g.dets, 0.4) == g.dets
    ensures var t := TrackId(cfg.stream, 1);
      && t in wg.state.tracks && wg.state.tracks[t].box == MIDWAY.box
      && (t in wh.state.tracks ==> wh.state.tracks[t].box == LEFT.box)
    ensures wg.state.tracks != wh.state.tracks
  {
    w, f := TwoFaceRun(cfg, interval);
    var t, u := TrackId(cfg.stream, 1), TrackId(cfg.stream, 2);
    MidwayTies(w.state.tracks, t, u);
    hide StableMatch, TrackId, Run;
    g, wg := OneMore(cfg, interval, w, f, t);
    h, wh := OneMore(cfg, interval, w, f, u);
    SuppressionKeeps();
  }

  lemma SuppressionKeeps()
    ensures Greedy([LEFT, RIGHT], 0.4) == [LEFT, RIGHT] && Greedy([MIDWAY], 0.4) == [MIDWAY]
  {
    var a, b := LEFT.box, RIGHT.box;
    assert Span(a.x1, a.x2, b.x1, b.x2) == 4.0 && Span(a.y1, a.y2, b.y1, b.y2) == 10.0;
    assert Overlap(a, b) == 40.0 && a.Area() == b.Area() == 100.0;
    assert Iou(a, b) == 40.0 / 160.0;
    hide Iou, Greedy;
    assert !Clashes(LEFT, RIGHT, 0.4);
    hide Clashes;
    SeparatedIsGreedy([LEFT, RIGHT], 0.4);
    SeparatedIsGreedy([MIDWAY], 0.4);
  }

  /** A second frame with the midway face, matched to the given track. */
  lemma OneMore(cfg: Config, interval: int, w: World, f: Frame, id: string) returns (g: Frame, w': World)
    requires Run(cfg, interval, [START, w], [f]) && WellFormed(cfg, w.state) && w.clock == 0 && cfg.maxAge >= 0
    requires id != "" && StableMatch([MIDWAY], w.state.tracks, [id])
    ensures Run(cfg, interval, [START, w, w'], [f, g]) && g.dets == [MIDWAY]
    ensures id in w'.state.tracks && w'.state.tracks[id].box == MIDWAY.box
    ensures forall t :: t in w'.state.tracks && t != id ==>
      t in w.state.tracks && w'.state.tracks[t].box == w.state.tracks[t].box
  {
    g := Frame([MIDWAY], [id], [NO_CROP]);
    hide StableMatch, Step;
    w' := StepExists(cfg, interval, w, g);
    RunOneMore(cfg, interval, [START, w], [f], g, w');
    assert [START, w] + [w'] == [START, w, w'] && [f] + [g] == [f, g];
    StepAges(cfg, interval, w, g, w');
    assert Owners(cfg.stream, w.state.nextID, [id]) == [id];
    hide *;
  }

  lemma RunOneMore(cfg: Config, interval: int, ws: seq<World>, fs: seq<Frame>, g: Frame, w: World)
    requires Run(cfg, interval, ws, fs) && Step(cfg, interval, ws[|fs|], g, w)
    ensures Run(cfg, interval, ws + [w], fs + [g])
  {
    hide Step;
  }

  // ---- population ----

  /** The tracks last seen k calls ago. */
  ghost function Cohort(s: State, k: int): set<string> {
    set id | id in s.tracks && s.tracks[id].timeSinceUpdate == k
  }

  /** Detections of the call k calls ago, none before the first. */
  function CallSize(w: World, k: nat): nat {
    if k < |w.calls| then |w.calls[|w.calls| - 1 - k]| else 0
  }

  /** Detections of the last n calls. */
  function RecentDetections(w: World, n: nat): nat {
    if n == 0 then 0 else RecentDetections(w, n - 1) + CallSize(w, n - 1)
  }

  ghost predicate Populated(cfg: Config, w: World) {
    && (forall id :: id in w.state.tracks ==> 0 <= w.state.tracks[id].timeSinceUpdate <= cfg.maxAge)
    && (forall k: nat :: |Cohort(w.state, k)| <= CallSize(w, k))
    && |Cohort(w.state, 0)| == CallSize(w, 0)
  }

  /** What a frame does to the calls-since-seen of every track. */
  lemma StepAges(cfg: Config, interval: int, w: World, f: Frame, w': World)
    requires Step(cfg, interval, w, f, w') && WellFormed(cfg, w.state)
    ensures var o := Owners(cfg.stream, w.state.nextID, f.assign);
      && |o| == |f.dets| && Distinct(o) && (forall i :: 0 <= i < |o| ==> o[i] != "")
      && (forall i :: 0 <= i < |o| && 0 <= cfg.maxAge ==> o[i] in w'.state.tracks)
      && (forall id :: id in w'.state.tracks ==>
            var t := w'.state.tracks[id];
            && t.timeSinceUpdate <= cfg.maxAge
            && if id in o then
                 var d := f.dets[IndexOf(o, id)];
                 t.timeSinceUpdate == 0 && t.box == d.box && t.confidence == d.confidence
               else
                 && id in w.state.tracks && t.timeSinceUpdate == w.state.tracks[id].timeSinceUpdate + 1
                 && t.box == w.state.tracks[id].box && t.confidence == w.state.tracks[id].confidence)
  {
    hide Recognition, Monotone, Unmatched, Reports, Owners, IndexOf, Achieved, IouWith, Minted;
    var mid, reports := Mid(cfg, w.state, f.dets, f.assign), ReportsOf(cfg, w, f);
    var o := Owners(cfg.stream, w.state.nextID, f.assign);
    RecognitionKeeps(cfg, interval, mid.tracks, reports, f.attempts);
    OwnersDistinct(cfg, w.state, f.dets, f.assign);
    forall i | 0 <= i < |o| ensures o[i] != "" {
      OwnerIsNewOrMatched(cfg, w.state, f.dets, f.assign, i);
    }
  }

  lemma {:induction false} DistinctCardinality(s: seq<string>)
    requires forall i, j :: 0 <= i < j < |s| ==> s[i] != s[j]
    ensures |set x | x in s| == |s|
  {
    if s != [] {
      var p := s[..|s| - 1];
      DistinctCardinality(p);
      assert (set x | x in s) == (set x | x in p) + {s[|s| - 1]};
    }
  }

  /** A frame moves every cohort on by one call and starts a new one. */
  lemma StepCohorts(cfg: Config, interval: int, w: World, f: Frame, w': World)
    requires Step(cfg, interval, w, f, w') && WellFormed(cfg, w.state) && Populated(cfg, w) && cfg.maxAge >= 0
    ensures |Cohort(w'.state, 0)| == |f.dets|
    ensures forall k: nat :: Cohort(w'.state, k + 1) <= Cohort(w.state, k)
    ensures forall id :: id in w'.state.tracks ==> 0 <= w'.state.tracks[id].timeSinceUpdate <= cfg.maxAge
  {
    hide Step, Owners;
    StepAges(cfg, interval, w, f, w');
    var o := Owners(cfg.stream, w.state.nextID, f.assign);
    assert Cohort(w'.state, 0) == set x | x in o;
    DistinctCardinality(o);
  }

  lemma StepCalls(cfg: Config, interval: int, w: World, f: Frame, w': World)
    requires Step(cfg, interval, w, f, w')
    ensures w'.calls == w.calls + [f.dets]
    ensures CallSize(w', 0) == |f.dets| && forall k: nat :: CallSize(w', k + 1) == CallSize(w, k)
  {
    hide StableMatch, Recognition, Refreshed, Owners, Reports, Swept, Monotone, Unmatched;
  }

  lemma StepPopulated(cfg: Config, interval: int, w: World, f: Frame, w': World)
    requires Step(cfg, interval, w, f, w') && WellFormed(cfg, w.state) && Populated(cfg, w) && cfg.maxAge >= 0
    ensures Populated(cfg, w')
  {
    hide Step, Cohort, CallSize;
    StepCohorts(cfg, interval, w, f, w');
    StepCalls(cfg, interval, w, f, w');
    forall k: nat ensures |Cohort(w'.state, k)| <= CallSize(w', k) {
      if k > 0 {
        var j: nat := k - 1;
        assert Cohort(w'.state, j + 1) <= Cohort(w.state, j);
        SubsetCardinality(Cohort(w'.state, k), Cohort(w.state, j));
        assert CallSize(w', j + 1) == CallSize(w, j);
      }
    }
  }

  lemma {:induction false} SubsetCardinality(a: set<string>, b: set<string>)
    requires a <= b
    ensures |a| <= |b|
  {
    assert b == a + (b - a);
  }

  /** After every call of every run: no track is older than maxAge, exactly the detections of this call
      are fresh, and those seen k calls ago are no more than the detections of that call. */
  lemma {:induction false} RunPopulated(cfg: Config, interval: int, ws: seq<World>, fs: seq<Frame>, n: nat)
    requires Run(cfg, interval, ws, fs) && n < |ws| && cfg.maxAge >= 0
    ensures Populated(cfg, ws[n]) && |ws[n].calls| == n
    ensures forall i :: 0 <= i < n ==> ws[n].calls[i] == fs[i].dets
  {
    hide Step;
    if n > 0 {
      RunPopulated(cfg, interval, ws, fs, n - 1);
      assert WellFormed(cfg, ws[n - 1].state) by { RunNumbered(cfg, interval, ws, fs, n - 1); }
      hide WellFormed, Populated;
      StepPopulated(cfg, interval, ws[n - 1], fs[n - 1], ws[n]);
      StepCalls(cfg, interval, ws[n - 1], fs[n - 1], ws[n]);
      hide CallSize;
    }
  }

  /** Tracks of age below n are at most the detections of the last n calls. */
  lemma {:induction false} YoungTracks(cfg: Config, w: World, n: nat)
    requires Populated(cfg, w)
    ensures |set id | id in w.state.tracks && w.state.tracks[id].timeSinceUpdate < n| <= RecentDetections(w, n)
  {
    var young := set id | id in w.state.tracks && w.state.tracks[id].timeSinceUpdate < n;
    if n == 0 {
      assert young == {};
    } else {
      var younger := set id | id in w.state.tracks && w.state.tracks[id].timeSinceUpdate < n - 1;
      YoungTracks(cfg, w, n - 1);
      assert young == younger + Cohort(w.state, n - 1);
      assert younger !! Cohort(w.state, n - 1);
    }
  }

  /** The number of tracks never exceeds the detections of the last maxAge + 1 calls. */
  lemma TrackCountBound(cfg: Config, interval: int, ws: seq<World>, fs: seq<Frame>, n: nat)
    requires Run(cfg, interval, ws, fs) && n < |ws| && cfg.maxAge >= 0
    ensures |ws[n].state.tracks| <= RecentDetections(ws[n], cfg.maxAge + 1)
  {
    hide Step;
    RunPopulated(cfg, interval, ws, fs, n);
    var w := ws[n];
    YoungTracks(cfg, w, cfg.maxAge + 1);
    assert w.state.tracks.Keys == set id | id in w.state.tracks && w.state.tracks[id].timeSinceUpdate < cfg.maxAge + 1;
    assert |w.state.tracks.Keys| == |w.state.tracks|;
  }

  // ---- reports name different tracks ----

  function Ids(reports: seq<Report>): (r: seq<string>)
    ensures |r| == |reports|
  {
    seq(|reports|, k requires 0 <= k < |reports| => reports[k].id)
  }

  lemma {:induction false} FullSetIsDistinct(s: seq<string>)
    requires |set x | x in s| >= |s|
    ensures forall i, j :: 0 <= i < j < |s| ==> s[i] != s[j]
  {
    if s != [] {
      var p, last := s[..|s| - 1], s[|s| - 1];
      if last in p {
        assert (set x | x in s) == set x | x in p;
        SetNoLarger(p);
      }
      assert (set x | x in s) == (set x | x in p) + {last};
      FullSetIsDistinct(p);
    }
  }

  lemma {:induction false} SetNoLarger(s: seq<string>)
    ensures |set x | x in s| <= |s|
  {
    if s != [] {
      var p := s[..|s| - 1];
      SetNoLarger(p);
      assert (set x | x in s) == (set x | x in p) + {s[|s| - 1]};
    }
  }

  /** No track is reported twice by one update. */
  lemma ReportsDistinct(cfg: Config, s: State, dets: seq<Detection>, assign: seq<string>)
    requires WellFormed(cfg, s) && StableMatch(dets, s.tracks, assign)
    ensures var ids := Ids(Reports(cfg.stream, s.nextID, assign));
      forall i, j :: 0 <= i < j < |ids| ==> ids[i] != ids[j]
  {
    hide Owners, Reports, Achieved, IouWith;
    var o, reports := Owners(cfg.stream, s.nextID, assign), Reports(cfg.stream, s.nextID, assign);
    var ids := Ids(reports);
    ReportsAreOwners(cfg.stream, s.nextID, assign);
    OwnersDistinct(cfg, s, dets, assign);
    forall i | 0 <= i < |o| ensures o[i] != "" && o[i] in ids {
      OwnerIsNewOrMatched(cfg, s, dets, assign, i);
      var r := Report(o[i], assign[i] == "");
      var k :| 0 <= k < |reports| && reports[k] == r;
      assert ids[k] == o[i];
    }
    DistinctCardinality(o);
    assert (set x | x in o) <= set x | x in ids;
    SubsetCardinality(set x | x in o, set x | x in ids);
    FullSetIsDistinct(ids);
  }
}
