/**
Boxes and recognition over whole runs of one tracker.
*/
module Pacing {
  import opened Arithmetic
  import opened Geometry
  import opened Nms
  import opened Detect
  import opened Tracking
  import opened TrackRuns

  // ---- boxes ----

  /** A track last seen k calls ago carries the box and confidence of a detection of exactly that call. */
  lemma {:induction false} BoxProvenance(cfg: Config, interval: int, ws: seq<World>, fs: seq<Frame>, n: nat, id: string)
    requires Run(cfg, interval, ws, fs) && n < |ws| && id in ws[n].state.tracks
    ensures var t := ws[n].state.tracks[id];
      0 <= t.timeSinceUpdate < n && exists d ::
        d in fs[n - 1 - t.timeSinceUpdate].dets && d.box == t.box && d.confidence == t.confidence
  {
    hide Step, Owners, IndexOf, WellFormed;
    if n > 0 {
      RunNumbered(cfg, interval, ws, fs, n - 1);
      StepAges(cfg, interval, ws[n - 1], fs[n - 1], ws[n]);
      var o := Owners(cfg.stream, ws[n - 1].state.nextID, fs[n - 1].assign);
      if id in o {
        assert fs[n - 1].dets[IndexOf(o, id)] in fs[n - 1].dets;
      } else {
        BoxProvenance(cfg, interval, ws, fs, n - 1, id);
      }
    }
  }

  /** If every frame hands the tracker only good boxes, every stored box is good for the frame it came
      from, and every overlap the matcher will compute is a proper ratio with a positive union. */
  lemma StoredBoxesAreGood(cfg: Config, interval: int, ws: seq<World>, fs: seq<Frame>, n: nat,
                           sizes: seq<(nat, nat)>, minSize: real, id: string, next: Box)
    requires Run(cfg, interval, ws, fs) && n < |ws| && |sizes| == |fs| && minSize > 0.0
    requires forall i :: 0 <= i < |fs| ==> forall d :: d in fs[i].dets ==> GoodBox(d.box, sizes[i].0, sizes[i].1, minSize)
    requires id in ws[n].state.tracks && LargeEnough(next, minSize)
    ensures var t := ws[n].state.tracks[id];
      && 0 <= t.timeSinceUpdate < n
      && GoodBox(t.box, sizes[n - 1 - t.timeSinceUpdate].0, sizes[n - 1 - t.timeSinceUpdate].1, minSize)
      && Union(next, t.box) > 0.0 && 0.0 <= Iou(next, t.box) <= 1.0
  {
    hide Step;
    BoxProvenance(cfg, interval, ws, fs, n, id);
    var t := ws[n].state.tracks[id];
    hide Iou, Union;
    IouRange(next, t.box);
  }

  // ---- runs behind the detector ----

  /** How a frame's detections came about: the model's output, the frame's size, the order the sort left. */
  datatype Origin = Origin(detector: Detector, origW: nat, origH: nat, sorted: seq<Detection>)

  ghost predicate FromDetector(dets: seq<Detection>, o: Origin, minSize: real) {
    && o.detector.Valid()
    && SortedPermutation(o.sorted, Parsed(o.detector, |STRIDES|, o.origW, o.origH))
    && dets == LargeOnly(Greedy(o.sorted, 0.4), minSize)
  }

  lemma FromDetectorIsGood(dets: seq<Detection>, o: Origin, minSize: real)
    requires FromDetector(dets, o, minSize)
    ensures Separated(dets, 0.4) && forall d :: d in dets ==> GoodBox(d.box, o.origW, o.origH, minSize)
  {
    hide Separated, GoodBox, Greedy, LargeOnly, Parsed;
    SurvivorsSeparated(o.sorted, 0.4);
    FilteredStaySeparated(Greedy(o.sorted, 0.4), 0.4, minSize);
    DetectedBoxesAreGood(o.detector, o.sorted, o.origW, o.origH, 0.4, minSize);
  }

  /** In every run behind the detector, whatever the model puts out: each stored box lies in the frame it
      came from and is large enough, and its overlap with each new detection is a proper ratio. */
  lemma DetectedRunIsGood(cfg: Config, interval: int, ws: seq<World>, fs: seq<Frame>, from: seq<Origin>, minSize: real,
                          n: nat, id: string, next: Detection)
    requires Run(cfg, interval, ws, fs) && |from| == |fs| && minSize > 0.0
    requires forall i :: 0 <= i < |fs| ==> FromDetector(fs[i].dets, from[i], minSize)
    requires n < |fs| && id in ws[n].state.tracks && next in fs[n].dets
    ensures var t := ws[n].state.tracks[id];
      && 0 <= t.timeSinceUpdate < n
      && var o := from[n - 1 - t.timeSinceUpdate];
      && GoodBox(t.box, o.origW, o.origH, minSize)
      && Union(next.box, t.box) > 0.0 && 0.0 <= Iou(next.box, t.box) <= 1.0
  {
    hide Step, FromDetector, Iou, Union, InFrame;
    var sizes := seq(|fs|, i requires 0 <= i < |fs| => (from[i].origW, from[i].origH));
    forall i, d | 0 <= i < |fs| && d in fs[i].dets ensures GoodBox(d.box, sizes[i].0, sizes[i].1, minSize) {
      FromDetectorIsGood(fs[i].dets, from[i], minSize);
    }
    FromDetectorIsGood(fs[n].dets, from[n], minSize);
    StoredBoxesAreGood(cfg, interval, ws, fs, n, sizes, minSize, id, next.box);
  }

  /** In every such run a detection that overlaps a track by more than 0.7 gets it, or one it overlaps at
      least as much, unless an earlier detection took the track with an overlap below 0.7. */
  lemma DetectedStrongOverlap(cfg: Config, interval: int, ws: seq<World>, fs: seq<Frame>, from: seq<Origin>, minSize: real,
                              n: nat, i: nat, id: string)
    requires Run(cfg, interval, ws, fs) && |from| == |fs| && minSize > 0.0
    requires forall k :: 0 <= k < |fs| ==> FromDetector(fs[k].dets, from[k], minSize)
    requires n < |fs| && i < |fs[n].dets| && id in ws[n].state.tracks
    requires IouWith(fs[n].dets[i], ws[n].state.tracks[id]) > 0.7
    ensures var dets, tracks, assign := fs[n].dets, ws[n].state.tracks, fs[n].assign;
      && |assign| == |dets|
      && (|| (assign[i] in tracks && IouWith(dets[i], tracks[assign[i]]) >= IouWith(dets[i], tracks[id]))
          || exists j :: 0 <= j < i && assign[j] == id && MIN_IOU < IouWith(dets[j], tracks[id]) < 0.7)
  {
    var dets, tracks, assign := fs[n].dets, ws[n].state.tracks, fs[n].assign;
    assert StableMatch(dets, tracks, assign) by { assert Step(cfg, interval, ws[n], fs[n], ws[n + 1]); }
    hide Step, FromDetector, IouWith, StableMatch, InFrame;
    NamesNeverReused(cfg, interval, ws, fs, n);
    DetectedRunIsGood(cfg, interval, ws, fs, from, minSize, n, id, dets[i]);
    FromDetectorIsGood(dets, from[n], minSize);
    MatchLength(dets, tracks, assign);
    assert forall d :: d in dets ==> Proper(d.box);
    StrongOverlapOutcome(dets, tracks, assign, i, id);
  }

  // ---- pacing ----

  /** Events of one track are at least the interval apart, only the first can be its first sighting, and
      the track remembers the latest. */
  ghost predicate Paced(interval: int, tracks: map<string, TrackState>, events: seq<Event>, clock: int) {
    && (forall e :: e in events ==> e.stampAt <= clock && (e.snapshot ==> e.isNew))
    && (forall id, e :: id in tracks && e in events && e.id == id ==>
          tracks[id].embedding.Some? && e.stampAt <= tracks[id].lastRecognized <= clock)
    && (forall i, j :: 0 <= i < j < |events| && events[i].id == events[j].id ==>
          events[j].stampAt - events[i].stampAt >= interval && !events[j].isNew)
  }

  lemma {:induction false} RecognitionUntouched(cfg: Config, interval: int, tracks: map<string, TrackState>,
                                                reports: seq<Report>, attempts: seq<Attempt>, id: string)
    requires |attempts| == |reports|
    requires forall k :: 0 <= k < |reports| ==> reports[k].id in tracks
    requires id in tracks && forall k :: 0 <= k < |reports| ==> reports[k].id != id
    ensures Recognition(cfg, interval, tracks, reports, attempts).0[id] == tracks[id]
  {
    if reports != [] {
      var n := |reports| - 1;
      RecognitionUntouched(cfg, interval, tracks, reports[..n], attempts[..n], id);
    }
  }

  lemma PacedStep(cfg: Config, interval: int, tracks: map<string, TrackState>, events: seq<Event>, clock: int,
                  r: Report, a: Attempt)
    requires Paced(interval, tracks, events, clock) && r.id in tracks
    requires clock <= a.checkAt <= a.stampAt
    requires r.isNew ==> forall e :: e in events ==> e.id != r.id
    ensures var t := tracks[r.id];
      if Recognized(cfg, t, r.isNew, interval, a) then
        Paced(interval, tracks[r.id := Stamped(t, a)],
              events + [EventOf(r.id, t, r.isNew, a)], a.stampAt)
      else Paced(interval, tracks, events, a.stampAt)
  {
  }

  /** One recognition pass keeps the pacing. */
  lemma {:induction false} RecognitionPaced(cfg: Config, interval: int, tracks: map<string, TrackState>, events: seq<Event>,
                                            clock: int, reports: seq<Report>, attempts: seq<Attempt>)
    requires |attempts| == |reports| && Monotone(attempts, clock)
    requires forall k :: 0 <= k < |reports| ==> reports[k].id in tracks
    requires forall k, l :: 0 <= k < l < |reports| ==> reports[k].id != reports[l].id
    requires forall k, e :: 0 <= k < |reports| && reports[k].isNew && e in events ==> e.id != reports[k].id
    requires Paced(interval, tracks, events, clock)
    ensures var (m, more) := Recognition(cfg, interval, tracks, reports, attempts);
      && Paced(interval, m, events + more, LastReading(attempts, clock))
      && forall e :: e in more ==> exists k :: 0 <= k < |reports| && e.id == reports[k].id
  {
    hide Recognized, Paced;
    if reports == [] {
      assert events + [] == events;
    } else {
      var n := |reports| - 1;
      RecognitionPaced(cfg, interval, tracks, events, clock, reports[..n], attempts[..n]);
      var (m, more) := Recognition(cfg, interval, tracks, reports[..n], attempts[..n]);
      var r, a := reports[n], attempts[n];
      forall e | r.isNew && e in events + more ensures e.id != r.id {
        if e in more {
          var k :| 0 <= k < |reports[..n]| && e.id == reports[..n][k].id;
          assert reports[k].id == e.id;
        }
      }
      PacedStep(cfg, interval, m, events + more, LastReading(attempts[..n], clock), r, a);
      assert (events + more) + [EventOf(r.id, m[r.id], r.isNew, a)] == events + (more + [EventOf(r.id, m[r.id], r.isNew, a)]);
    }
  }

  /** The invariant of a run: pacing, and no event of a track not yet opened. */
  ghost predicate PacedWorld(cfg: Config, interval: int, w: World) {
    && Paced(interval, w.state.tracks, w.events, w.clock)
    && forall e :: e in w.events ==> Minted(cfg.stream, w.state.nextID, e.id)
  }

  /** Matching and opening tracks leaves pacing alone: a new name has no events. */
  lemma MidPaced(cfg: Config, interval: int, w: World, dets: seq<Detection>, assign: seq<string>)
    requires WellFormed(cfg, w.state) && StableMatch(dets, w.state.tracks, assign) && PacedWorld(cfg, interval, w)
    ensures |assign| == |dets| && Paced(interval, Mid(cfg, w.state, dets, assign).tracks, w.events, w.clock)
    ensures forall r, e :: r in Reports(cfg.stream, w.state.nextID, assign) && r.isNew && e in w.events ==> e.id != r.id
  {
    hide Owners, Achieved, IouWith, News, Matches, Minted;
    var o := Owners(cfg.stream, w.state.nextID, assign);
    forall i, e | 0 <= i < |o| && assign[i] == "" && e in w.events ensures e.id != o[i] {
      OwnerUnminted(cfg, w.state.nextID, assign, i);
    }
    forall id, e | id in o && id !in w.state.tracks && e in w.events ensures e.id != id {
      var i := IndexOf(o, id);
      OwnerIsNewOrMatched(cfg, w.state, dets, assign, i);
    }
    ReportNames(cfg.stream, w.state.nextID, assign);
    forall r, e | r in Reports(cfg.stream, w.state.nextID, assign) && r.isNew && e in w.events ensures e.id != r.id {
      NewsUnminted(cfg, w.state.nextID, assign, r);
    }
  }

  lemma OwnerUnminted(cfg: Config, nextID: nat, assign: seq<string>, i: nat)
    requires i < |assign| && assign[i] == ""
    ensures !Minted(cfg.stream, nextID, Owners(cfg.stream, nextID, assign)[i])
  {
    OwnerAt(cfg, nextID, assign, i);
    Unminted(cfg.stream, nextID, nextID + Unmatched(assign[..i + 1]));
  }

  lemma Unminted(stream: string, nextID: nat, n: nat)
    requires n > nextID
    ensures !Minted(stream, nextID, TrackId(stream, n))
  {
    hide TrackId;
    forall k | 1 <= k <= nextID ensures TrackId(stream, n) != TrackId(stream, k) {
      TrackIdInjective(stream, n, k);
    }
  }

  lemma {:induction false} NewsUnminted(cfg: Config, nextID: nat, assign: seq<string>, r: Report)
    requires r in News(cfg.stream, nextID, assign)
    ensures !Minted(cfg.stream, nextID, r.id)
  {
    hide Minted, TrackId;
    var p := assign[..|assign| - 1];
    if r in News(cfg.stream, nextID, p) {
      NewsUnminted(cfg, nextID, p, r);
    } else {
      Unminted(cfg.stream, nextID, nextID + Unmatched(assign));
    }
  }

  lemma StepPaced(cfg: Config, interval: int, w: World, f: Frame, w': World)
    requires Step(cfg, interval, w, f, w') && WellFormed(cfg, w.state) && PacedWorld(cfg, interval, w)
    ensures PacedWorld(cfg, interval, w')
  {
    hide Owners, Recognition, Refreshed, Paced, StableMatch, Monotone, Reports, Unmatched;
    MidPaced(cfg, interval, w, f.dets, f.assign);
    var mid, reports := Mid(cfg, w.state, f.dets, f.assign), ReportsOf(cfg, w, f);
    ReportsDistinct(cfg, w.state, f.dets, f.assign);
    assert forall k :: 0 <= k < |reports| ==> Ids(reports)[k] == reports[k].id;
    RecognitionPaced(cfg, interval, mid.tracks, w.events, w.clock, reports, f.attempts);
    var (tracks, more) := Recognition(cfg, interval, mid.tracks, reports, f.attempts);
    SweepPaced(interval, tracks, w'.events, w'.clock, cfg.maxAge);
    UpdateWellFormed(cfg, w.state, f.dets, f.assign);
    assert mid.nextID >= w.state.nextID;
    forall e | e in w'.events ensures Minted(cfg.stream, w'.state.nextID, e.id) {
      if e in more {
        var k :| 0 <= k < |reports| && e.id == reports[k].id;
      } else {
        var k :| 1 <= k <= w.state.nextID && e.id == TrackId(cfg.stream, k);
        assert 1 <= k <= w'.state.nextID;
      }
    }
  }

  lemma SweepPaced(interval: int, tracks: map<string, TrackState>, events: seq<Event>, clock: int, maxAge: int)
    requires Paced(interval, tracks, events, clock)
    ensures Paced(interval, Swept(tracks, maxAge), events, clock)
  {
  }

  /** In every run, events of one track are at least the interval apart and only its first one can
      carry a snapshot. */
  lemma {:induction false} RunPaced(cfg: Config, interval: int, ws: seq<World>, fs: seq<Frame>, n: nat)
    requires Run(cfg, interval, ws, fs) && n < |ws|
    ensures PacedWorld(cfg, interval, ws[n])
    ensures var es := ws[n].events;
      forall i, j :: 0 <= i < j < |es| && es[i].id == es[j].id ==>
        es[j].stampAt - es[i].stampAt >= interval && !es[j].snapshot
  {
    hide Step, WellFormed, Minted;
    if n > 0 {
      RunPaced(cfg, interval, ws, fs, n - 1);
      RunNumbered(cfg, interval, ws, fs, n - 1);
      StepPaced(cfg, interval, ws[n - 1], fs[n - 1], ws[n]);
    }
  }

  // ---- windows ----

  /** Times at which events of one track were published within [from, from + length]. */
  function StampsIn(events: seq<Event>, id: string, from: int, length: int): seq<int> {
    if events == [] then []
    else
      var e := events[|events| - 1];
      StampsIn(events[..|events| - 1], id, from, length)
      + if e.id == id && from <= e.stampAt <= from + length then [e.stampAt] else []
  }

  predicate Spaced(s: seq<int>, gap: int) {
    forall i, j :: 0 <= i < j < |s| ==> s[j] - s[i] >= gap
  }

  lemma {:induction false} StampsSpaced(events: seq<Event>, id: string, from: int, length: int, gap: int)
    requires forall i, j :: 0 <= i < j < |events| && events[i].id == events[j].id ==> events[j].stampAt - events[i].stampAt >= gap
    ensures var s := StampsIn(events, id, from, length);
      && Spaced(s, gap)
      && (forall t :: t in s ==> from <= t <= from + length && exists e :: e in events && e.id == id && e.stampAt == t)
  {
    if events != [] {
      var p := events[..|events| - 1];
      StampsSpaced(p, id, from, length, gap);
      var s := StampsIn(p, id, from, length);
      var last := events[|events| - 1];
      forall i | 0 <= i < |s| && last.id == id ensures last.stampAt - s[i] >= gap {
        assert s[i] in s;
        var e :| e in p && e.id == id && e.stampAt == s[i];
        var k :| 0 <= k < |p| && p[k] == e;
        assert events[k] == e;
      }
      forall t | t in s ensures exists e :: e in events && e.id == id && e.stampAt == t {
        var e :| e in p && e.id == id && e.stampAt == t;
        assert e in events;
      }
      assert last in events;
    }
  }

  lemma {:induction false} SpacedSpan(s: seq<int>, gap: int)
    requires Spaced(s, gap) && s != []
    ensures s[|s| - 1] - s[0] >= (|s| - 1) * gap
  {
    if |s| > 1 {
      var p := s[..|s| - 1];
      SpacedSpan(p, gap);
      assert (|s| - 1) * gap == (|s| - 2) * gap + gap;
    }
  }

  /** In any window of a given length a track has at most 1 + length / interval events. */
  lemma WindowBound(cfg: Config, interval: int, ws: seq<World>, fs: seq<Frame>, n: nat, id: string, from: int, length: nat)
    requires Run(cfg, interval, ws, fs) && n < |ws| && interval > 0
    ensures |StampsIn(ws[n].events, id, from, length)| <= 1 + length / interval
  {
    hide Step, PacedWorld;
    RunPaced(cfg, interval, ws, fs, n);
    var s := StampsIn(ws[n].events, id, from, length);
    StampsSpaced(ws[n].events, id, from, length, interval);
    if s != [] {
      SpacedSpan(s, interval);
      assert s[0] in s && s[|s| - 1] in s;
      QuotientBound(|s| - 1, interval, length);
    }
  }

  lemma QuotientBound(k: nat, d: nat, n: nat)
    requires d > 0 && k * d <= n
    ensures k <= n / d
  {
    assert n < (n / d + 1) * d;
    CancelLess(k, n / d + 1, d);
  }
}
