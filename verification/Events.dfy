/**
Which detection events a frame publishes (the recognition loop of internal/vision/pipeline.go), told from
the events published before and the calls that saw the track.
*/
module Events {
  import opened Nms
  import opened Options
  import opened Tracking
  import opened TrackRuns
  import opened Pacing

  function CountOf(events: seq<Event>, id: string): nat {
    if events == [] then 0
    else CountOf(events[..|events| - 1], id) + if events[|events| - 1].id == id then 1 else 0
  }

  lemma CountSnoc(events: seq<Event>, e: Event, id: string)
    ensures CountOf(events + [e], id) == CountOf(events, id) + if e.id == id then 1 else 0
  {
    assert (events + [e])[..|events|] == events;
  }

  // ---- one pass over the reports ----

  /** With different tracks reported, each decision looks at the track as the update left it. */
  lemma {:induction false} RecognitionEvents(cfg: Config, interval: int, tracks: map<string, TrackState>,
                                             reports: seq<Report>, attempts: seq<Attempt>, k: nat)
    requires |attempts| == |reports| && k < |reports|
    requires forall i :: 0 <= i < |reports| ==> reports[i].id in tracks
    requires forall i, j :: 0 <= i < j < |reports| ==> reports[i].id != reports[j].id
    ensures var r, a, more := reports[k], attempts[k], Recognition(cfg, interval, tracks, reports, attempts).1;
      var t := tracks[r.id];
      if Recognized(cfg, t, r.isNew, interval, a) then
        CountOf(more, r.id) == 1 && EventOf(r.id, t, r.isNew, a) in more
      else CountOf(more, r.id) == 0
  {
    hide Recognized;
    var n := |reports| - 1;
    var m := Recognition(cfg, interval, tracks, reports[..n], attempts[..n]).0;
    var more := Recognition(cfg, interval, tracks, reports[..n], attempts[..n]).1;
    var e := EventOf(reports[n].id, m[reports[n].id], reports[n].isNew, attempts[n]);
    CountSnoc(more, e, reports[k].id);
    if k < n {
      RecognitionEvents(cfg, interval, tracks, reports[..n], attempts[..n], k);
    } else {
      RecognitionUntouched(cfg, interval, tracks, reports[..n], attempts[..n], reports[n].id);
      NoEventsFor(cfg, interval, tracks, reports[..n], attempts[..n], reports[n].id);
    }
  }

  /** Nobody else gets an event. */
  lemma {:induction false} NoEventsFor(cfg: Config, interval: int, tracks: map<string, TrackState>,
                                       reports: seq<Report>, attempts: seq<Attempt>, id: string)
    requires |attempts| == |reports|
    requires forall i :: 0 <= i < |reports| ==> reports[i].id in tracks && reports[i].id != id
    ensures CountOf(Recognition(cfg, interval, tracks, reports, attempts).1, id) == 0
  {
    hide Recognized;
    if reports != [] {
      var n := |reports| - 1;
      NoEventsFor(cfg, interval, tracks, reports[..n], attempts[..n], id);
      var m := Recognition(cfg, interval, tracks, reports[..n], attempts[..n]).0;
      var more := Recognition(cfg, interval, tracks, reports[..n], attempts[..n]).1;
      CountSnoc(more, EventOf(reports[n].id, m[reports[n].id], reports[n].isNew, attempts[n]), id);
    }
  }

  // ---- what a track remembers ----

  /** A track with an embedding has an event of the time it remembers. */
  ghost predicate Remembered(tracks: map<string, TrackState>, events: seq<Event>) {
    forall id :: id in tracks && tracks[id].embedding.Some? ==>
      exists e :: e in events && e.id == id && e.stampAt == tracks[id].lastRecognized
  }

  lemma {:induction false} RecognitionRemembers(cfg: Config, interval: int, tracks: map<string, TrackState>, events: seq<Event>,
                                                reports: seq<Report>, attempts: seq<Attempt>)
    requires |attempts| == |reports| && Remembered(tracks, events)
    requires forall k :: 0 <= k < |reports| ==> reports[k].id in tracks
    ensures var r := Recognition(cfg, interval, tracks, reports, attempts); Remembered(r.0, events + r.1)
  {
    hide Recognized, Remembered;
    if reports == [] {
      assert events + [] == events;
    } else {
      var n := |reports| - 1;
      RecognitionRemembers(cfg, interval, tracks, events, reports[..n], attempts[..n]);
      var (m, more) := Recognition(cfg, interval, tracks, reports[..n], attempts[..n]);
      var e := EventOf(reports[n].id, m[reports[n].id], reports[n].isNew, attempts[n]);
      StampRemembers(m, events + more, reports[n].id, attempts[n], e);
      assert events + (more + [e]) == (events + more) + [e];
    }
  }

  lemma StampRemembers(tracks: map<string, TrackState>, events: seq<Event>, id: string, a: Attempt, e: Event)
    requires Remembered(tracks, events) && id in tracks && e.id == id && e.stampAt == a.stampAt
    ensures Remembered(tracks[id := Stamped(tracks[id], a)], events + [e])
  {
    assert e in events + [e];
    assert forall x :: x in events ==> x in events + [e];
  }

  lemma MidRemembers(cfg: Config, w: World, dets: seq<Detection>, assign: seq<string>)
    requires |dets| == |assign| && Remembered(w.state.tracks, w.events)
    ensures Remembered(Mid(cfg, w.state, dets, assign).tracks, w.events)
  {
    hide Owners, IndexOf;
  }

  lemma StepRemembers(cfg: Config, interval: int, w: World, f: Frame, w': World)
    requires Step(cfg, interval, w, f, w') && Remembered(w.state.tracks, w.events)
    ensures Remembered(w'.state.tracks, w'.events)
  {
    MatchLength(f.dets, w.state.tracks, f.assign);
    hide StableMatch, Monotone, Recognition, Reports, Refreshed, Owners, Unmatched;
    var mid, reports := Mid(cfg, w.state, f.dets, f.assign), ReportsOf(cfg, w, f);
    MidRemembers(cfg, w, f.dets, f.assign);
    RecognitionRemembers(cfg, interval, mid.tracks, w.events, reports, f.attempts);
  }

  lemma {:induction false} RunRemembers(cfg: Config, interval: int, ws: seq<World>, fs: seq<Frame>, n: nat)
    requires Run(cfg, interval, ws, fs) && n < |ws|
    ensures Remembered(ws[n].state.tracks, ws[n].events)
  {
    hide Step;
    if n > 0 {
      RunRemembers(cfg, interval, ws, fs, n - 1);
      hide Remembered;
      StepRemembers(cfg, interval, ws[n - 1], fs[n - 1], ws[n]);
    }
  }

  // ---- which reports are due ----

  /** Calls that owned the track so far, this one included. */
  function HitsNow(w: World, id: string): int {
    (if id in w.state.tracks then w.state.tracks[id].hits else 0) + 1
  }

  /** A report is due for an event: the face can be cut out and embedded, and the track is new, or has
      been hit often enough and every earlier event of it is at least the interval old. */
  ghost predicate Due(cfg: Config, interval: int, w: World, r: Report, a: Attempt) {
    && a.cropOk && a.embedding.Some?
    && (r.isNew
        || (HitsNow(w, r.id) >= cfg.minHits
            && forall e :: e in w.events && e.id == r.id ==> e.stampAt + interval <= a.checkAt))
  }

  /** The track a report is about, as the update left it. */
  lemma ReportedTrack(cfg: Config, interval: int, w: World, f: Frame, w': World, k: nat)
    requires Step(cfg, interval, w, f, w') && WellFormed(cfg, w.state) && k < |f.dets|
    ensures |ReportsOf(cfg, w, f)| == |f.dets| == |f.assign|
    ensures var r, o := ReportsOf(cfg, w, f)[k], Owners(cfg.stream, w.state.nextID, f.assign);
      && r.id in o
      && var t, d := Mid(cfg, w.state, f.dets, f.assign).tracks[r.id], f.dets[IndexOf(o, r.id)];
      && t.hits == HitsNow(w, r.id) && t.box == d.box && t.confidence == d.confidence
      && if r.id in w.state.tracks then
           t.embedding == w.state.tracks[r.id].embedding && t.lastRecognized == w.state.tracks[r.id].lastRecognized
         else t.embedding == None
  {
    MatchLength(f.dets, w.state.tracks, f.assign);
    ReportsAreOwners(cfg.stream, w.state.nextID, f.assign);
    assert ReportsOf(cfg, w, f)[k] in ReportsOf(cfg, w, f);
    hide Owners, Recognition, Reports, IndexOf, StableMatch, Unmatched, Monotone;
  }

  lemma DueIsRecognized(cfg: Config, interval: int, w: World, t: TrackState, r: Report, a: Attempt)
    requires PacedWorld(cfg, interval, w) && Remembered(w.state.tracks, w.events) && t.hits == HitsNow(w, r.id)
    requires r.id in w.state.tracks || forall e :: e in w.events ==> e.id != r.id
    requires if r.id in w.state.tracks then
               t.embedding == w.state.tracks[r.id].embedding && t.lastRecognized == w.state.tracks[r.id].lastRecognized
             else t.embedding == None
    ensures Recognized(cfg, t, r.isNew, interval, a) <==> Due(cfg, interval, w, r, a)
  {
    hide Minted;
    if r.id in w.state.tracks && t.embedding.Some? {
      var e :| e in w.events && e.id == r.id && e.stampAt == t.lastRecognized;
      assert e.stampAt + interval <= a.checkAt <==> a.checkAt - t.lastRecognized >= interval;
    }
  }

  /** Each frame of each run: a reported track gets exactly one event if it is due and none otherwise; the
      event carries the box and confidence of the detection the track owns in this frame, the embedding
      just extracted, and a snapshot exactly if the track is new and the upload succeeds. */
  lemma EventsOfStep(cfg: Config, interval: int, ws: seq<World>, fs: seq<Frame>, n: nat, k: nat)
    requires Run(cfg, interval, ws, fs) && n < |fs| && k < |fs[n].dets|
    ensures |ReportsOf(cfg, ws[n], fs[n])| == |fs[n].dets| == |fs[n].attempts| == |fs[n].assign|
    ensures var w, r, a := ws[n], ReportsOf(cfg, ws[n], fs[n])[k], fs[n].attempts[k];
      && w.events <= ws[n + 1].events
      && var more, o := ws[n + 1].events[|w.events|..], Owners(cfg.stream, w.state.nextID, fs[n].assign);
      && r.id in o
      && var d := fs[n].dets[IndexOf(o, r.id)];
      && (Due(cfg, interval, w, r, a) ==>
            && CountOf(more, r.id) == 1
            && Event(r.id, d.box, d.confidence, a.embedding, a.checkAt, a.stampAt, r.isNew, r.isNew && a.putOk) in more)
      && (!Due(cfg, interval, w, r, a) ==> CountOf(more, r.id) == 0)
  {
    var w, f, w' := ws[n], fs[n], ws[n + 1];
    assert Step(cfg, interval, w, f, w');
    RunNumbered(cfg, interval, ws, fs, n);
    RunPaced(cfg, interval, ws, fs, n);
    RunRemembers(cfg, interval, ws, fs, n);
    EventsOfOneStep(cfg, interval, w, f, w', k);
    hide *;
  }

  lemma EventsOfOneStep(cfg: Config, interval: int, w: World, f: Frame, w': World, k: nat)
    requires Step(cfg, interval, w, f, w') && WellFormed(cfg, w.state) && PacedWorld(cfg, interval, w)
    requires Remembered(w.state.tracks, w.events) && k < |f.dets|
    ensures |ReportsOf(cfg, w, f)| == |f.dets| == |f.attempts| == |f.assign|
    ensures var r, a := ReportsOf(cfg, w, f)[k], f.attempts[k];
      && w.events <= w'.events
      && var more, o := w'.events[|w.events|..], Owners(cfg.stream, w.state.nextID, f.assign);
      && r.id in o
      && var d := f.dets[IndexOf(o, r.id)];
      && (Due(cfg, interval, w, r, a) ==>
            && CountOf(more, r.id) == 1
            && Event(r.id, d.box, d.confidence, a.embedding, a.checkAt, a.stampAt, r.isNew, r.isNew && a.putOk) in more)
      && (!Due(cfg, interval, w, r, a) ==> CountOf(more, r.id) == 0)
  {
    ReportedTrack(cfg, interval, w, f, w', k);
    ReportHasEvents(cfg, interval, w, f, w', k);
    StepEvents(cfg, interval, w, f, w');
    hide *;
    var mid, reports := Mid(cfg, w.state, f.dets, f.assign), ReportsOf(cfg, w, f);
    RecognitionEvents(cfg, interval, mid.tracks, reports, f.attempts, k);
    DueIsRecognized(cfg, interval, w, mid.tracks[reports[k].id], reports[k], f.attempts[k]);
    EventOfTrack(reports[k].id, mid.tracks[reports[k].id], reports[k].isNew, f.attempts[k]);
  }

  lemma EventOfTrack(id: string, t: TrackState, isNew: bool, a: Attempt)
    ensures EventOf(id, t, isNew, a)
         == Event(id, t.box, t.confidence, a.embedding, a.checkAt, a.stampAt, isNew, isNew && a.putOk)
  {
  }

  /** A step publishes what recognition of the updated tracks finds, on reports about different tracks. */
  lemma StepEvents(cfg: Config, interval: int, w: World, f: Frame, w': World)
    requires Step(cfg, interval, w, f, w') && WellFormed(cfg, w.state)
    ensures var reports := ReportsOf(cfg, w, f);
      && |f.dets| == |f.assign| && |reports| == |f.attempts| == |f.dets|
      && var mid := Mid(cfg, w.state, f.dets, f.assign);
      && (forall k :: 0 <= k < |reports| ==> reports[k].id in mid.tracks)
      && (forall i, j :: 0 <= i < j < |reports| ==> reports[i].id != reports[j].id)
      && w.events <= w'.events
      && w'.events[|w.events|..] == Recognition(cfg, interval, mid.tracks, reports, f.attempts).1
  {
    MatchLength(f.dets, w.state.tracks, f.assign);
    ReportsDistinct(cfg, w.state, f.dets, f.assign);
    var reports := ReportsOf(cfg, w, f);
    assert forall i :: 0 <= i < |reports| ==> Ids(reports)[i] == reports[i].id;
    hide StableMatch, Monotone, Recognition, Reports, Refreshed, Owners, Unmatched, Ids;
  }

  /** A track that is not reported gets no event. */
  lemma OthersGetNone(cfg: Config, interval: int, ws: seq<World>, fs: seq<Frame>, n: nat, id: string)
    requires Run(cfg, interval, ws, fs) && n < |fs|
    requires forall r :: r in ReportsOf(cfg, ws[n], fs[n]) ==> r.id != id
    ensures ws[n].events <= ws[n + 1].events && CountOf(ws[n + 1].events[|ws[n].events|..], id) == 0
  {
    var w, f, w' := ws[n], fs[n], ws[n + 1];
    assert Step(cfg, interval, w, f, w');
    RunNumbered(cfg, interval, ws, fs, n);
    StepEvents(cfg, interval, w, f, w');
    hide *;
    var reports := ReportsOf(cfg, w, f);
    assert forall i :: 0 <= i < |reports| ==> reports[i] in reports;
    NoEventsFor(cfg, interval, Mid(cfg, w.state, f.dets, f.assign).tracks, reports, f.attempts, id);
  }

  lemma ReportHasEvents(cfg: Config, interval: int, w: World, f: Frame, w': World, k: nat)
    requires Step(cfg, interval, w, f, w') && WellFormed(cfg, w.state) && PacedWorld(cfg, interval, w)
    requires k < |ReportsOf(cfg, w, f)|
    ensures var r := ReportsOf(cfg, w, f)[k];
      r.id in w.state.tracks || forall e :: e in w.events ==> e.id != r.id
  {
    var r := ReportsOf(cfg, w, f)[k];
    assert r in ReportsOf(cfg, w, f);
    MidPaced(cfg, interval, w, f.dets, f.assign);
    ReportNames(cfg.stream, w.state.nextID, f.assign);
    MatchNames(f.assign, r);
    hide Owners, Matches, News, Paced, Refreshed, Recognition, Unmatched, Minted;
    if !r.isNew {
      MatchIsKnown(f.dets, w.state.tracks, f.assign, r);
    }
  }

  lemma {:induction false} MatchNames(assign: seq<string>, r: Report)
    ensures r in Matches(assign) ==> r.id in assign && r.id != ""
  {
    if assign != [] {
      MatchNames(assign[..|assign| - 1], r);
      assert assign == assign[..|assign| - 1] + [assign[|assign| - 1]];
    }
  }

  lemma MatchIsKnown(dets: seq<Detection>, tracks: map<string, TrackState>, assign: seq<string>, r: Report)
    requires StableMatch(dets, tracks, assign) && r.id in assign && r.id != ""
    ensures r.id in tracks
  {
    hide IouWith;
  }
}
