/**
The per-worker pipeline (internal/vision/pipeline.go): trackers by stream, and `ProcessFrame` from the
detector's survivors on.  Every frame is shown to be one step of the run model.
*/
module Pipeline {
  import opened Nms
  import opened Detect
  import opened Tracking
  import opened TrackerObject
  import opened TrackRuns

  class Pipeline {
    const maxAge: int
    const minHits: int
    const interval: int
    const minSize: real
    var trackers: map<string, Tracker>

    constructor (maxAge: int, minHits: int, interval: int, minSize: real)
      ensures Valid() && trackers == map[]
    {
      this.maxAge, this.minHits, this.interval, this.minSize := maxAge, minHits, interval, minSize;
      trackers := map[];
    }

    ghost predicate Valid()
      reads this, trackers.Values, set s, id | s in trackers && id in trackers[s].tracks :: trackers[s].tracks[id]
    {
      && (forall s :: s in trackers ==> trackers[s].cfg == Config(s, maxAge, minHits) && trackers[s].Valid())
      && (forall s, r, id :: s in trackers && r in trackers && s != r && id in trackers[s].tracks ==>
            trackers[s].tracks[id] !in trackers[r].tracks.Values)
    }

    method GetTracker(stream: string) returns (t: Tracker)
      requires Valid()
      modifies this
      ensures Valid() && stream in trackers && t == trackers[stream]
      ensures stream in old(trackers) ==> trackers == old(trackers)
      ensures stream !in old(trackers) ==>
        trackers == old(trackers)[stream := t] && fresh(t) && t.tracks == map[] && t.View() == State(map[], 0)
    {
      if stream in trackers {
        return trackers[stream];
      }
      t := new Tracker(Config(stream, maxAge, minHits));
      trackers := trackers[stream := t];
    }

    ghost function TrackerState(stream: string): State
      reads this, trackers.Values, set s, id | s in trackers && id in trackers[s].tracks :: trackers[s].tracks[id]
    {
      if stream in trackers then trackers[stream].View() else State(map[], 0)
    }

    /** The frame's own tracker moves; every other tracker shares no object with it and stays. */
    method TrackStream(stream: string, dets: seq<Detection>, attempts: seq<Attempt>, ghost w: World)
      returns (events: seq<Event>, ghost f: Frame, ghost w': World)
      requires Valid()
      requires |attempts| == |dets| && Monotone(attempts, w.clock)
      requires w.state == TrackerState(stream)
      modifies this, trackers.Values, set s, id | s in trackers && id in trackers[s].tracks :: trackers[s].tracks[id]
      ensures Valid()
      ensures f.dets == dets && f.attempts == attempts && Step(Config(stream, maxAge, minHits), interval, w, f, w') && w'.events == w.events + events
      ensures w'.state == TrackerState(stream)
      ensures forall s :: s != stream ==> TrackerState(s) == old(TrackerState(s))
    {
      hide Step, Monotone, Tracker.Valid, Tracker.View;
      var tracker := GetTracker(stream);
      events, f, w' := TrackKnown(stream, dets, attempts, w);
    }

    method TrackKnown(stream: string, dets: seq<Detection>, attempts: seq<Attempt>, ghost w: World)
      returns (events: seq<Event>, ghost f: Frame, ghost w': World)
      requires Valid() && stream in trackers
      requires |attempts| == |dets| && Monotone(attempts, w.clock)
      requires w.state == trackers[stream].View()
      modifies trackers[stream], trackers[stream].tracks.Values
      ensures Valid() && trackers == old(trackers)
      ensures f.dets == dets && f.attempts == attempts && Step(Config(stream, maxAge, minHits), interval, w, f, w') && w'.events == w.events + events
      ensures w'.state == trackers[stream].View()
      ensures forall s :: s in trackers && s != stream ==> trackers[s].View() == old(trackers[s].View())
    {
      hide Step, Monotone, Tracker.Valid, Tracker.View;
      var tracker := trackers[stream];
      events, f, w' := TrackFrame(tracker, interval, dets, attempts, w);
      forall s | s in trackers && s != stream
        ensures trackers[s].tracks == old(trackers[s].tracks) && trackers[s].Valid()
        ensures trackers[s].View() == old(trackers[s].View())
      {
        assert trackers[s] != tracker;
        assert forall id :: id in trackers[s].tracks ==> trackers[s].tracks[id] !in old(tracker.tracks.Values);
      }
    }

    /** From the survivors of suppression on.  A frame with a surviving detection is one step of the run
        of its stream's tracker; a frame without leaves every tracker as it was; and no frame touches
        the tracker of another stream.  `w` is the run so far, `attempts` what recognition will meet. */
    method ProcessFrame(stream: string, a: array<Detection>, attempts: seq<Attempt>, ghost w: World)
      returns (events: seq<Event>, ghost f: Frame, ghost w': World)
      requires Valid()
      requires |attempts| >= a.Length && Monotone(attempts, w.clock)
      requires w.state == TrackerState(stream)
      modifies this, trackers.Values, set s, id | s in trackers && id in trackers[s].tracks :: trackers[s].tracks[id]
      modifies a
      ensures Valid()
      ensures var kept := if minSize > 0.0 then LargeOnly(old(a[..]), minSize) else old(a[..]);
        if kept == [] then events == [] && w' == w
        else
          && f.dets == kept && |kept| <= |attempts| && f.attempts == attempts[..|kept|]
          && Step(Config(stream, maxAge, minHits), interval, w, f, w') && w'.events == w.events + events
      ensures w'.state == TrackerState(stream)
      ensures forall s :: s != stream ==> TrackerState(s) == old(TrackerState(s))
    {
      f, w' := Frame([], [], []), w;
      events := [];
      if a.Length == 0 {
        assert LargeOnly([], minSize) == [];
        return;
      }
      var n := FilterSmall(a, minSize);
      if n == 0 {
        return;
      }
      events, f, w' := TrackStream(stream, a[..n], attempts[..n], w);
    }
  }

  /** A success stamps the shared track object, so a tracker that still holds it sees the stamp. */
  method StampTrack(tracker: Tracker, track: Track, a: Attempt)
    requires tracker.Valid()
    requires track.id in tracker.tracks ==> tracker.tracks[track.id] == track
    modifies track
    ensures tracker.Valid() && track.State() == Stamped(old(track.State()), a)
    ensures tracker.View() == State(StampedIn(old(tracker.View().tracks), track.id, a), old(tracker.View().nextID))
  {
    hide Minted;
    track.embedding := a.embedding;
    track.lastRecognized := a.stampAt;
    assert forall id :: id in tracker.tracks && id != track.id ==> tracker.tracks[id] != track;
    tracker.ViewIs(StampedIn(old(tracker.View().tracks), track.id, a));
  }

  ghost function StampedIn(tracks: map<string, TrackState>, id: string, a: Attempt): map<string, TrackState> {
    if id in tracks then tracks[id := Stamped(tracks[id], a)] else tracks
  }

  lemma StampedFields(t: TrackState, a: Attempt)
    ensures var u := Stamped(t, a);
      u.box == t.box && u.confidence == t.confidence && u.embedding == a.embedding && u.lastRecognized == a.stampAt
  {
  }

  /** Stamping and sweeping commute. */
  lemma StampThenSweep(m: map<string, TrackState>, id: string, a: Attempt, maxAge: int)
    requires id in m
    ensures Swept(m[id := Stamped(m[id], a)], maxAge) == StampedIn(Swept(m, maxAge), id, a)
  {
  }

  /** Update, then recognition: one step of the run model. */
  method TrackFrame(tracker: Tracker, interval: int, dets: seq<Detection>, attempts: seq<Attempt>, ghost w: World)
    returns (events: seq<Event>, ghost f: Frame, ghost w': World)
    requires tracker.Valid() && w.state == tracker.View()
    requires |attempts| == |dets| && Monotone(attempts, w.clock)
    modifies tracker, tracker.tracks.Values
    ensures tracker.Valid() && f.dets == dets && f.attempts == attempts
    ensures Step(tracker.cfg, interval, w, f, w') && w'.events == w.events + events && w'.state == tracker.View()
    ensures forall id :: id in tracker.tracks ==> tracker.tracks[id] in old(tracker.tracks.Values) || fresh(tracker.tracks[id])
  {
    hide StableMatch, Monotone, Recognition, Owners, Refreshed, Reports, Swept, Minted;
    var cfg := tracker.cfg;
    var updates;
    ghost var assign;
    tracker.ViewFacts();
    updates, assign := tracker.Update(dets);
    f := Frame(dets, assign, attempts);
    w' := StepExists(cfg, interval, w, f);
    ReportsDistinct(cfg, w.state, dets, assign);
    ghost var mid := Mid(cfg, w.state, dets, assign);
    assert forall k :: 0 <= k < |updates| ==>
      Reported(updates)[k].id == updates[k].track.id == Ids(Reports(cfg.stream, w.state.nextID, assign))[k];
    events := ProcessUpdates(tracker, interval, updates, attempts, mid);
  }

  lemma RecognitionStarts(cfg: Config, interval: int, tracks: map<string, TrackState>, reports: seq<Report>, attempts: seq<Attempt>)
    ensures Recognition(cfg, interval, tracks, reports[..0], attempts[..0]) == (tracks, [])
  {
  }

  lemma RecognitionSnoc(cfg: Config, interval: int, tracks: map<string, TrackState>, reports: seq<Report>,
                        attempts: seq<Attempt>, n: nat)
    requires n < |attempts| == |reports|
    requires forall k :: 0 <= k < |reports| ==> reports[k].id in tracks
    ensures var (m, es) := Recognition(cfg, interval, tracks, reports[..n], attempts[..n]);
      var r, a := reports[n], attempts[n];
      Recognition(cfg, interval, tracks, reports[..n + 1], attempts[..n + 1])
      == if Recognized(cfg, m[r.id], r.isNew, interval, a) then
           (m[r.id := Stamped(m[r.id], a)], es + [EventOf(r.id, m[r.id], r.isNew, a)])
         else (m, es)
  {
    assert reports[..n + 1][..n] == reports[..n] && attempts[..n + 1][..n] == attempts[..n];
    hide Recognized, Stamped;
  }

  /** The loop over the updates, in order. */
  method ProcessUpdates(tracker: Tracker, interval: int, updates: seq<TrackUpdate>, attempts: seq<Attempt>, ghost mid: State)
    returns (events: seq<Event>)
    requires tracker.Valid()
    requires |attempts| == |updates|
    requires forall k :: 0 <= k < |updates| ==> HoldsMid(updates[k].track, mid)
    requires forall k :: 0 <= k < |updates| ==> Reported(updates)[k].id in mid.tracks
    requires forall k :: 0 <= k < |updates| && updates[k].track.id in tracker.tracks ==>
      tracker.tracks[updates[k].track.id] == updates[k].track
    requires forall k, l :: 0 <= k < l < |updates| ==> updates[k].track.id != updates[l].track.id
    requires tracker.View() == State(Swept(mid.tracks, tracker.cfg.maxAge), mid.nextID)
    modifies set u | u in updates :: u.track
    ensures tracker.Valid()
    ensures var (m, es) := Recognition(tracker.cfg, interval, mid.tracks, Reported(updates), attempts);
      tracker.View() == State(Swept(m, tracker.cfg.maxAge), mid.nextID) && events == es
  {
    hide Swept, Stamped, StampedIn, Tracking.ShouldRecognize, Tracker.Valid, Tracker.View, Recognition;
    events := [];
    ghost var m := mid.tracks;
    RecognitionStarts(tracker.cfg, interval, m, Reported(updates), attempts);
    for n := 0 to |updates|
      invariant tracker.Valid()
      invariant (m, events) == Recognition(tracker.cfg, interval, mid.tracks, Reported(updates)[..n], attempts[..n])
      invariant forall k :: 0 <= k < |updates| ==> HoldsMid(updates[k].track, State(m, mid.nextID))
      invariant tracker.View() == State(Swept(m, tracker.cfg.maxAge), mid.nextID)
    {
      var u, a := updates[n], attempts[n];
      var track := u.track;
      RecognitionSnoc(tracker.cfg, interval, mid.tracks, Reported(updates), attempts, n);
      var needRecognition := tracker.ShouldRecognize(track, interval, a.checkAt);
      if !needRecognition && !u.isNew {
        continue;
      }
      if !a.cropOk {
        continue;
      }
      if a.embedding.None? {
        continue;
      }
      StampTrack(tracker, track, a);
      StampThenSweep(m, track.id, a, tracker.cfg.maxAge);
      StampedFields(m[track.id], a);
      m := m[track.id := Stamped(m[track.id], a)];
      var snapshot := u.isNew && a.putOk;
      events := events + [Event(track.id, track.box, track.confidence, track.embedding, a.checkAt, track.lastRecognized, u.isNew, snapshot)];
    }
    assert Reported(updates)[..|updates|] == Reported(updates) && attempts[..|updates|] == attempts;
  }
}
