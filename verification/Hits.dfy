/**
What `Hits` counts (internal/vision/track.go).  Its comment says consecutive detections; it is never reset.
*/
module Hits {
  import opened Geometry
  import opened Nms
  import opened Tracking
  import opened TrackRuns
  import opened Pacing

  /** The track owns a detection of this call. */
  predicate Owned(cfg: Config, w: World, f: Frame, id: string) {
    id in Owners(cfg.stream, w.state.nextID, f.assign)
  }

  /** In how many of the first n calls it did. */
  function TimesOwned(cfg: Config, ws: seq<World>, fs: seq<Frame>, n: nat, id: string): nat
    requires n <= |fs| < |ws|
  {
    if n == 0 then 0 else TimesOwned(cfg, ws, fs, n - 1, id) + if Owned(cfg, ws[n - 1], fs[n - 1], id) then 1 else 0
  }

  /** In how many calls it did without a break up to the n-th. */
  function Streak(cfg: Config, ws: seq<World>, fs: seq<Frame>, n: nat, id: string): nat
    requires n <= |fs| < |ws|
  {
    if n == 0 || !Owned(cfg, ws[n - 1], fs[n - 1], id) then 0 else Streak(cfg, ws, fs, n - 1, id) + 1
  }

  /** One of the first n calls found the track open and left it without a detection. */
  ghost predicate Missed(cfg: Config, ws: seq<World>, fs: seq<Frame>, n: nat, id: string)
    requires n <= |fs| < |ws|
  {
    exists i :: 0 <= i < n && id in ws[i].state.tracks && !Owned(cfg, ws[i], fs[i], id)
  }

  lemma StepHits(cfg: Config, interval: int, w: World, f: Frame, w': World, id: string)
    requires Step(cfg, interval, w, f, w') && WellFormed(cfg, w.state) && id in w'.state.tracks
    ensures Owned(cfg, w, f, id) || id in w.state.tracks
    ensures w'.state.tracks[id].hits
         == (if id in w.state.tracks then w.state.tracks[id].hits else 0) + (if Owned(cfg, w, f, id) then 1 else 0)
  {
    MatchLength(f.dets, w.state.tracks, f.assign);
    hide Recognition, Monotone, Unmatched, Reports, Owners, IndexOf, StableMatch, Minted;
    var mid, reports := Mid(cfg, w.state, f.dets, f.assign), ReportsOf(cfg, w, f);
    RecognitionKeeps(cfg, interval, mid.tracks, reports, f.attempts);
  }

  /** A name that is not among the tracks of a call that uses it was never handed out before. */
  lemma NewOwnerIsUnminted(cfg: Config, interval: int, w: World, f: Frame, w': World, id: string)
    requires Step(cfg, interval, w, f, w') && WellFormed(cfg, w.state)
    requires Owned(cfg, w, f, id) && id !in w.state.tracks
    ensures !Minted(cfg.stream, w.state.nextID, id)
  {
    MatchLength(f.dets, w.state.tracks, f.assign);
    hide Recognition, Monotone, Unmatched, Reports, Owners, StableMatch, Minted, WellFormed, Refreshed;
    var o := Owners(cfg.stream, w.state.nextID, f.assign);
    var i := IndexOf(o, id);
    OwnerIsNewOrMatched(cfg, w.state, f.dets, f.assign, i);
    OwnerUnminted(cfg, w.state.nextID, f.assign, i);
  }

  lemma OwnerIsMinted(cfg: Config, interval: int, w: World, f: Frame, w': World, id: string)
    requires Step(cfg, interval, w, f, w') && WellFormed(cfg, w.state) && Owned(cfg, w, f, id)
    ensures Minted(cfg.stream, w'.state.nextID, id)
  {
    MatchLength(f.dets, w.state.tracks, f.assign);
    hide Recognition, Monotone, Unmatched, Reports, Owners, StableMatch, Minted;
    UpdateWellFormed(cfg, w.state, f.dets, f.assign);
    assert id in Mid(cfg, w.state, f.dets, f.assign).tracks;
  }

  lemma MintedMore(cfg: Config, interval: int, w: World, f: Frame, w': World, id: string)
    requires Step(cfg, interval, w, f, w') && Minted(cfg.stream, w.state.nextID, id)
    ensures Minted(cfg.stream, w'.state.nextID, id)
  {
    hide Recognition, Monotone, Reports, Owners, StableMatch, Refreshed, TrackId;
    var k :| 1 <= k <= w.state.nextID && id == TrackId(cfg.stream, k);
    assert 1 <= k <= w'.state.nextID;
  }

  /** Before a name is handed out no call knows it. */
  lemma {:induction false} UnknownBefore(cfg: Config, interval: int, ws: seq<World>, fs: seq<Frame>, n: nat, id: string)
    requires Run(cfg, interval, ws, fs) && n <= |fs| && !Minted(cfg.stream, ws[n].state.nextID, id)
    ensures TimesOwned(cfg, ws, fs, n, id) == Streak(cfg, ws, fs, n, id) == 0 && !Missed(cfg, ws, fs, n, id)
  {
    hide Step, Owned, Minted;
    if n > 0 {
      var w, f, w' := ws[n - 1], fs[n - 1], ws[n];
      assert Step(cfg, interval, w, f, w');
      RunNumbered(cfg, interval, ws, fs, n - 1);
      if Minted(cfg.stream, w.state.nextID, id) {
        MintedMore(cfg, interval, w, f, w', id);
      }
      if Owned(cfg, w, f, id) {
        OwnerIsMinted(cfg, interval, w, f, w', id);
      }
      UnknownBefore(cfg, interval, ws, fs, n - 1, id);
    }
  }

  /** Over whole runs `Hits` is the number of calls in which the track owned a detection, the one that
      opened it included; it is the number of consecutive ones exactly if no call missed the track. */
  lemma {:induction false} HitsCountCalls(cfg: Config, interval: int, ws: seq<World>, fs: seq<Frame>, n: nat, id: string)
    requires Run(cfg, interval, ws, fs) && n <= |fs| && id in ws[n].state.tracks
    ensures var hits := ws[n].state.tracks[id].hits;
      && hits == TimesOwned(cfg, ws, fs, n, id) && hits >= 1
      && (hits == Streak(cfg, ws, fs, n, id) <==> !Missed(cfg, ws, fs, n, id))
  {
    hide Step, Owned;
    if n > 0 {
      var w, f, w' := ws[n - 1], fs[n - 1], ws[n];
      assert Step(cfg, interval, w, f, w');
      RunNumbered(cfg, interval, ws, fs, n - 1);
      StepHits(cfg, interval, w, f, w', id);
      hide Minted, WellFormed;
      if id in w.state.tracks {
        HitsCountCalls(cfg, interval, ws, fs, n - 1, id);
      } else {
        NewOwnerIsUnminted(cfg, interval, w, f, w', id);
        UnknownBefore(cfg, interval, ws, fs, n - 1, id);
      }
    }
  }

  // ---- a break that does not show ----

  const FAR := Detection(Box(100.0, 0.0, 110.0, 10.0), 0.8, LANDMARKS)

  lemma FarApart()
    ensures Iou(FAR.box, LEFT.box) == Iou(LEFT.box, FAR.box) == 0.0 && Iou(LEFT.box, LEFT.box) == 1.0
  {
    hide Iou;
    Apart(LEFT.box, FAR.box);
    IouRange(LEFT.box, LEFT.box);
  }

  lemma Apart(a: Box, b: Box)
    requires a.x2 <= b.x1
    ensures Iou(a, b) == Iou(b, a) == 0.0
  {
    assert Span(a.x1, a.x2, b.x1, b.x2) == 0.0;
    assert Overlap(a, b) == 0.0 * Span(a.y1, a.y2, b.y1, b.y2);
    hide Iou, Overlap, Span;
    OverlapSymmetric(a, b);
    EmptyOverlap(a, b);
    EmptyOverlap(b, a);
  }

  /** The far face matches no track left by the other one, and the other one finds its own again. */
  lemma FarMatchesNone(tracks: map<string, TrackState>)
    requires forall id :: id in tracks ==> tracks[id].box == LEFT.box
    ensures StableMatch([FAR], tracks, [""])
  {
    FarApart();
    hide Iou;
  }

  lemma LeftMatchesOwn(tracks: map<string, TrackState>, t: string)
    requires t in tracks && t != "" && tracks[t].box == LEFT.box
    requires forall id :: id in tracks && id != t ==> tracks[id].box == FAR.box
    ensures StableMatch([LEFT], tracks, [t])
  {
    FarApart();
    hide Iou;
  }

  /** A run, the clock standing still, with one detection a frame. */
  lemma OneFace(cfg: Config, interval: int, ws: seq<World>, fs: seq<Frame>, d: Detection, given: string)
    returns (f: Frame, w': World)
    requires Run(cfg, interval, ws, fs) && ws[|fs|].clock == 0 && cfg.maxAge >= 1
    requires StableMatch([d], ws[|fs|].state.tracks, [given])
    ensures Run(cfg, interval, ws + [w'], fs + [f]) && w'.clock == 0 && f.dets == [d] && f.assign == [given]
    ensures var w := ws[|fs|]; var own := if given == "" then TrackId(cfg.stream, w.state.nextID + 1) else given;
      && w'.state.nextID == w.state.nextID + (if given == "" then 1 else 0)
      && (forall id :: Owned(cfg, w, f, id) <==> id == own)
      && own in w'.state.tracks && w'.state.tracks[own].box == d.box && w'.state.tracks[own].timeSinceUpdate == 0
      && (forall id :: id in w.state.tracks && w.state.tracks[id].timeSinceUpdate < cfg.maxAge ==> id in w'.state.tracks)
      && forall id :: id in w'.state.tracks && id != own ==>
           id in w.state.tracks && w'.state.tracks[id].box == w.state.tracks[id].box
  {
    var w := ws[|fs|];
    f := Frame([d], [given], [NO_CROP]);
    RunNumbered(cfg, interval, ws, fs, |fs|);
    hide StableMatch, Step, TrackId;
    w' := StepExists(cfg, interval, w, f);
    RunOneMore(cfg, interval, ws, fs, f, w');
    StepAges(cfg, interval, w, f, w');
    StepCounts(cfg, interval, w, f, w');
    StepKeeps(cfg, interval, w, f, w');
    assert [given][..0] == [];
    assert Unmatched([given]) == if given == "" then 1 else 0;
    assert Owners(cfg.stream, w.state.nextID, []) == [];
  }

  lemma StepCounts(cfg: Config, interval: int, w: World, f: Frame, w': World)
    requires Step(cfg, interval, w, f, w')
    ensures w'.clock == LastReading(f.attempts, w.clock) && w'.state.nextID == w.state.nextID + Unmatched(f.assign)
  {
    hide Recognition, Reports, Owners, Refreshed, Unmatched;
  }

  lemma StepKeeps(cfg: Config, interval: int, w: World, f: Frame, w': World)
    requires Step(cfg, interval, w, f, w') && WellFormed(cfg, w.state) && cfg.maxAge >= 0
    ensures forall id :: id in w.state.tracks && w.state.tracks[id].timeSinceUpdate < cfg.maxAge ==> id in w'.state.tracks
  {
    MatchLength(f.dets, w.state.tracks, f.assign);
    hide Recognition, Monotone, Unmatched, Reports, Owners, IndexOf, StableMatch, Minted;
    var mid, reports := Mid(cfg, w.state, f.dets, f.assign), ReportsOf(cfg, w, f);
    RecognitionKeeps(cfg, interval, mid.tracks, reports, f.attempts);
  }

  lemma SeenOnce(cfg: Config, interval: int) returns (f: Frame, v: World)
    requires cfg.maxAge >= 1
    ensures Run(cfg, interval, [START, v], [f]) && v.clock == 0 && v.state.nextID == 1 && f.dets == [LEFT]
    ensures var t := TrackId(cfg.stream, 1);
      && Owned(cfg, START, f, t) && t in v.state.tracks && (forall id :: id in v.state.tracks ==> id == t)
      && v.state.tracks[t].box == LEFT.box && v.state.tracks[t].timeSinceUpdate == 0
  {
    assert StableMatch([LEFT], START.state.tracks, [""]);
    RunStarts(cfg, interval);
    hide TrackId, Run, StableMatch, Owners, LEFT;
    f, v := OneFace(cfg, interval, [START], [], LEFT, "");
    assert [START] + [v] == [START, v] && [] + [f] == [f];
  }

  lemma ThenFar(cfg: Config, interval: int, f: Frame, v: World, t: string) returns (g: Frame, w: World)
    requires cfg.maxAge >= 1 && Run(cfg, interval, [START, v], [f]) && v.clock == 0 && v.state.nextID == 1
    requires t == TrackId(cfg.stream, 1) && t in v.state.tracks && forall id :: id in v.state.tracks ==> id == t
    requires v.state.tracks[t].box == LEFT.box && v.state.tracks[t].timeSinceUpdate == 0
    ensures Run(cfg, interval, [START, v, w], [f, g]) && w.clock == 0 && g.dets == [FAR]
    ensures !Owned(cfg, v, g, t) && t in w.state.tracks && w.state.tracks[t].box == LEFT.box
    ensures forall id :: id in w.state.tracks && id != t ==> w.state.tracks[id].box == FAR.box
  {
    hide *;
    FarMatchesNone(v.state.tracks);
    TrackIdInjective(cfg.stream, 1, 2);
    g, w := OneFace(cfg, interval, [START, v], [f], FAR, "");
    Appended([START, v], w);
    Appended([f], g);
  }

  lemma Appended<T>(s: seq<T>, x: T)
    ensures |s| == 1 ==> s + [x] == [s[0], x]
    ensures |s| == 2 ==> s + [x] == [s[0], s[1], x]
    ensures |s| == 3 ==> s + [x] == [s[0], s[1], s[2], x]
  {
  }

  /** A face seen, missed in favour of another one, and seen again: `Hits` is 2, in a row it is 1. */
  lemma HitsSurviveABreak(cfg: Config, interval: int) returns (ws: seq<World>, fs: seq<Frame>)
    requires cfg.maxAge >= 1
    ensures Run(cfg, interval, ws, fs) && |fs| == 3 && fs[0].dets == fs[2].dets == [LEFT] && fs[1].dets == [FAR]
    ensures var id := TrackId(cfg.stream, 1);
      id in ws[3].state.tracks && ws[3].state.tracks[id].hits == 2 && Streak(cfg, ws, fs, 3, id) == 1
  {
    hide *;
    TrackIdInjective(cfg.stream, 1, 2);
    var t := TrackId(cfg.stream, 1);
    var f, v := SeenOnce(cfg, interval);
    var g, w := ThenFar(cfg, interval, f, v, t);
    LeftMatchesOwn(w.state.tracks, t);
    var h, x := OneFace(cfg, interval, [START, v, w], [f, g], LEFT, t);
    ws, fs := [START, v, w, x], [f, g, h];
    Appended([START, v, w], x);
    Appended([f, g], h);
    TwoOfThree(cfg, ws, fs, t);
    HitsCountCalls(cfg, interval, ws, fs, 3, t);
  }

  lemma RunStarts(cfg: Config, interval: int)
    ensures Run(cfg, interval, [START], [])
  {
  }

  lemma TwoOfThree(cfg: Config, ws: seq<World>, fs: seq<Frame>, t: string)
    requires |fs| == 3 && |ws| == 4
    requires Owned(cfg, ws[0], fs[0], t) && !Owned(cfg, ws[1], fs[1], t) && Owned(cfg, ws[2], fs[2], t)
    ensures TimesOwned(cfg, ws, fs, 3, t) == 2 && Streak(cfg, ws, fs, 3, t) == 1
  {
    hide Owned;
    assert TimesOwned(cfg, ws, fs, 1, t) == 1;
    assert TimesOwned(cfg, ws, fs, 2, t) == 1;
    assert Streak(cfg, ws, fs, 2, t) == 0;
  }
}
