/**
The tracker object (internal/vision/track.go): tracks shared by reference between the map and the
updates it hands out, updated in place.
*/
module TrackerObject {
  import opened Geometry
  import opened Nms
  import opened Options
  import opened Tracking

  class Track {
    const id: string
    var box: Box
    var confidence: real
    var hits: int
    var timeSinceUpdate: int
    var embedding: Option<seq<real>>
    var lastRecognized: int

    constructor (id: string, d: Detection)
      ensures this.id == id && State() == Fresh(id, d)
    {
      this.id := id;
      box, confidence, hits, timeSinceUpdate := d.box, d.confidence, 1, 0;
      embedding, lastRecognized := None, 0;
    }

    function State(): TrackState
      reads this
    {
      TrackState(id, box, confidence, hits, timeSinceUpdate, embedding, lastRecognized)
    }
  }

  datatype TrackUpdate = TrackUpdate(track: Track, isNew: bool)

  function Reported(updates: seq<TrackUpdate>): seq<Report> {
    seq(|updates|, k requires 0 <= k < |updates| => Report(updates[k].track.id, updates[k].isNew))
  }

  function Names(list: seq<Track>): (r: seq<string>)
    ensures |r| == |list| && forall k :: 0 <= k < |list| ==> r[k] == list[k].id
  {
    seq(|list|, k requires 0 <= k < |list| => list[k].id)
  }

  /** State of a track once the detections of `assign` have been handed out. */
  ghost function Handed(pre: map<string, TrackState>, dets: seq<Detection>, assign: seq<string>, id: string): TrackState
    requires id in pre && |assign| <= |dets|
  {
    if id in assign then Seen(pre[id], dets[IndexOf(assign, id)]) else pre[id]
  }

  lemma HandedSnoc(pre: map<string, TrackState>, dets: seq<Detection>, assign: seq<string>, best: string)
    requires |assign| < |dets|
    ensures forall id :: id in pre ==>
      Handed(pre, dets, assign + [best], id)
      == if id == best then Seen(pre[id], dets[|assign|]) else Handed(pre, dets, assign, id)
  {
    assert (assign + [best])[..|assign|] == assign;
  }

  lemma ReportedPlus(updates: seq<TrackUpdate>, u: TrackUpdate)
    ensures Reported(updates + [u]) == Reported(updates) + [Report(u.track.id, u.isNew)]
  {
  }

  lemma ReportedConcat(a: seq<TrackUpdate>, b: seq<TrackUpdate>)
    ensures Reported(a + b) == Reported(a) + Reported(b)
  {
  }

  lemma MatchesSnoc(assign: seq<string>, best: string)
    ensures Matches(assign + [best]) == Matches(assign) + if best != "" then [Report(best, false)] else []
  {
    assert (assign + [best])[..|assign|] == assign;
  }

  class Tracker {
    const cfg: Config
    var tracks: map<string, Track>
    var nextID: nat

    ghost predicate Valid()
      reads this, tracks.Values
    {
      forall id :: id in tracks ==> tracks[id].id == id && Minted(cfg.stream, nextID, id)
    }

    function View(): State
      reads this, tracks.Values
    {
      State(map id | id in tracks :: tracks[id].State(), nextID)
    }

    constructor (cfg: Config)
      ensures Valid() && tracks == map[] && View() == State(map[], 0) && this.cfg == cfg
    {
      this.cfg := cfg;
      tracks, nextID := map[], 0;
    }

    method TrackCount() returns (n: nat)
      ensures n == |View().tracks|
    {
      n := |tracks|;
      assert View().tracks.Keys == tracks.Keys;
      assert |View().tracks.Keys| == |View().tracks| && |tracks.Keys| == |tracks|;
    }

    /** First loop: every track gets one call older. */
    method AgeAll()
      requires Valid()
      modifies tracks.Values
      ensures Valid()
      ensures forall id :: id in tracks ==> tracks[id].State() == Aged(old(tracks[id].State()))
    {
      var todo := tracks.Keys;
      while todo != {}
        invariant todo <= tracks.Keys
        invariant forall id :: id in tracks ==>
          tracks[id].State() == if id in todo then old(tracks[id].State()) else Aged(old(tracks[id].State()))
        decreases todo
      {
        var id :| id in todo;
        tracks[id].timeSinceUpdate := tracks[id].timeSinceUpdate + 1;
        todo := todo - {id};
      }
    }

    /** The list holds each track once. */
    ghost predicate Lists(list: seq<Track>)
      reads this
    {
      && (forall k :: 0 <= k < |list| ==> list[k].id in tracks && tracks[list[k].id] == list[k])
      && Distinct(Names(list)) && (forall id :: id in Names(list) <==> id in tracks)
    }

    lemma ViewAt()
      ensures View().tracks.Keys == tracks.Keys && forall id :: id in tracks ==> View().tracks[id] == tracks[id].State()
    {
    }

    lemma ListFacts(list: seq<Track>)
      requires Valid() && Lists(list)
      ensures View().tracks.Keys == tracks.Keys && Enumerates(Names(list), View().tracks)
      ensures forall id :: id in tracks ==> View().tracks[id] == tracks[id].State()
      ensures forall t :: t in Names(list) ==> t in tracks
    {
    }

    /** The slice of tracks, in whatever order the map is iterated. */
    method TrackList() returns (list: seq<Track>)
      requires Valid()
      ensures Lists(list)
    {
      var todo := tracks.Keys;
      list := [];
      while todo != {}
        invariant todo <= tracks.Keys
        invariant forall k :: 0 <= k < |list| ==> list[k].id in tracks && tracks[list[k].id] == list[k]
        invariant Distinct(Names(list)) && forall id :: id in Names(list) <==> id in tracks && id !in todo
        decreases todo
      {
        var id :| id in todo;
        assert Names(list + [tracks[id]]) == Names(list) + [id];
        list := list + [tracks[id]];
        todo := todo - {id};
      }
    }

    /** Inner matching loop over the list: the unmatched track that `Best` specifies. */
    method BestTrack(list: seq<Track>, det: Detection, matched: set<string>) returns (best: string)
      requires Valid() && "" !in tracks && Lists(list)
      ensures best != "" ==> best in tracks
      ensures View().tracks.Keys == tracks.Keys && best == Best(det, View().tracks, Names(list), matched)
    {
      hide Iou, Minted;
      var bestIoU := MIN_IOU;
      best := "";
      assert forall id :: id in tracks ==> View().tracks[id].box == tracks[id].box;
      for n := 0 to |list|
        invariant best == Best(det, View().tracks, Names(list)[..n], matched)
        invariant bestIoU == ToBeat(det, View().tracks, best)
      {
        var tr := list[n];
        assert Names(list)[..n + 1][..n] == Names(list)[..n];
        if tr.id in matched {
          continue;
        }
        var iouVal := Iou(det.box, tr.box);
        if iouVal > bestIoU {
          bestIoU := iouVal;
          best := tr.id;
        }
      }
      assert Names(list)[..|list|] == Names(list);
    }

    /** One turn of the matching loop: the best unmatched track, if any, takes over the detection. */
    method MatchOne(det: Detection, list: seq<Track>, matched: set<string>) returns (best: string)
      requires Valid() && "" !in tracks && Lists(list)
      modifies tracks.Values
      ensures Valid() && old(View().tracks).Keys == tracks.Keys
      ensures best == Best(det, old(View().tracks), Names(list), matched)
      ensures forall id :: id in tracks ==>
        tracks[id].State() == if id == best then Seen(old(tracks[id].State()), det) else old(tracks[id].State())
    {
      hide Iou, Best, Lists, Minted, View;
      best := BestTrack(list, det, matched);
      if best != "" {
        var tr := tracks[best];
        tr.box := det.box;
        tr.confidence := det.confidence;
        tr.hits := tr.hits + 1;
        tr.timeSinceUpdate := 0;
      }
    }

    /** The matching loop.  Boxes are overwritten as it runs, yet the match is the one against the boxes
        before the loop, and so stable: an overwritten track is never looked at again. */
    method MatchDetections(dets: seq<Detection>, list: seq<Track>)
      returns (updates: seq<TrackUpdate>, detMatched: seq<bool>, ghost assign: seq<string>)
      requires Valid() && "" !in tracks && Lists(list)
      modifies tracks.Values
      ensures Valid()
      ensures Enumerates(Names(list), old(View().tracks)) && assign == MatchBy(dets, old(View().tracks), Names(list))
      ensures |assign| == |dets| && StableMatch(dets, old(View().tracks), assign)
      ensures |detMatched| == |dets| && forall i :: 0 <= i < |dets| ==> (detMatched[i] <==> assign[i] != "")
      ensures forall id :: id in tracks ==> tracks[id].State() == Handed(old(View().tracks), dets, assign, id)
      ensures Reported(updates) == Matches(assign)
      ensures forall u :: u in updates ==> u.track in tracks.Values
    {
      hide Handing, Handed, Seen, Reported, Matches, Minted, Best, MatchBy, StableMatch, Enumerates, Lists, Names, View;
      ghost var pre := View().tracks;
      ListFacts(list);
      var matched: set<string> := {};
      updates, detMatched, assign := [], [], [];
      NothingMatched(pre, dets, Names(list));
      for di := 0 to |dets|
        invariant Valid() && |assign| == di
        invariant Handing(dets, pre, Names(list), assign, matched, detMatched)
        invariant forall id :: id in tracks ==> tracks[id].State() == Handed(pre, dets, assign, id)
        invariant Reported(updates) == Matches(assign)
        invariant forall u :: u in updates ==> u.track in tracks.Values
      {
        ghost var now := View().tracks;
        ViewAt();
        var best := MatchOne(dets[di], list, matched);
        HandingStep(dets, pre, now, Names(list), assign, matched, detMatched, best);
        MatchesSnoc(assign, best);
        if best != "" {
          matched := matched + {best};
          ReportedPlus(updates, TrackUpdate(tracks[best], false));
          updates := updates + [TrackUpdate(tracks[best], false)];
        }
        detMatched := detMatched + [best != ""];
        assign := assign + [best];
      }
      HandingDone(dets, pre, Names(list), assign, matched, detMatched);
    }

    method CreateTrack(det: Detection) returns (tr: Track)
      requires Valid()
      modifies this`tracks, this`nextID
      ensures Valid() && nextID == old(nextID) + 1
      ensures fresh(tr) && tr.id == TrackId(cfg.stream, nextID) && tr.State() == Fresh(tr.id, det)
      ensures tr.id !in old(tracks) && tracks == old(tracks)[tr.id := tr]
    {
      NewNameIsNew(cfg, View(), nextID + 1);
      nextID := nextID + 1;
      tr := new Track(TrackId(cfg.stream, nextID), det);
      tracks := tracks[tr.id := tr];
    }

    /** The loop that opens a track for every unmatched detection. */
    method CreateTracks(dets: seq<Detection>, detMatched: seq<bool>, ghost assign: seq<string>)
      returns (updates: seq<TrackUpdate>)
      requires Valid() && |detMatched| == |assign| == |dets|
      requires forall i :: 0 <= i < |dets| ==> (detMatched[i] <==> assign[i] != "")
      requires forall i :: 0 <= i < |dets| && assign[i] != "" ==> assign[i] in tracks
      modifies this`tracks, this`nextID
      ensures Valid() && nextID == old(nextID) + Unmatched(assign)
      ensures forall id :: id in old(tracks) ==> id in tracks && tracks[id] == old(tracks[id])
      ensures var o := Owners(cfg.stream, old(nextID), assign);
        && (forall id :: id in tracks <==> id in old(tracks) || id in o)
        && (forall i :: 0 <= i < |dets| && assign[i] == "" ==>
              fresh(tracks[o[i]]) && tracks[o[i]].State() == Fresh(o[i], dets[i]))
      ensures Reported(updates) == News(cfg.stream, old(nextID), assign)
      ensures forall u :: u in updates ==> u.track in tracks.Values
    {
      hide Fresh, TrackId, Owners, Unmatched, News, Reported, Minted;
      NothingCreated(cfg, nextID, assign);
      updates := [];
      ghost var o: seq<string> := [];
      for di := 0 to |dets|
        invariant Valid() && nextID == old(nextID) + Unmatched(assign[..di])
        invariant forall id :: id in old(tracks) ==> id in tracks && tracks[id] == old(tracks)[id]
        invariant o == Owners(cfg.stream, old(nextID), assign[..di])
        invariant forall id :: id in tracks <==> id in old(tracks) || id in o
        invariant forall i :: 0 <= i < di && assign[i] == "" ==> o[i] !in old(tracks)
        invariant forall i :: 0 <= i < di && assign[i] == "" ==>
          fresh(tracks[o[i]]) && tracks[o[i]].State() == Fresh(o[i], dets[i])
        invariant Reported(updates) == News(cfg.stream, old(nextID), assign[..di])
        invariant forall u :: u in updates ==> u.track in tracks.Values
      {
        CreatedSnoc(cfg, old(nextID), assign, di);
        if detMatched[di] {
          o := o + [assign[di]];
          continue;
        }
        var tr := CreateTrack(dets[di]);
        ReportedPlus(updates, TrackUpdate(tr, true));
        updates := updates + [TrackUpdate(tr, true)];
        o := o + [tr.id];
        assert tracks[tr.id] == tr;
      }
      assert assign[..|dets|] == assign;
    }

    /** The last loop, deleting while it iterates. */
    method Sweep()
      requires Valid()
      modifies this`tracks
      ensures Valid()
      ensures forall id :: id in tracks <==> id in old(tracks) && old(tracks)[id].timeSinceUpdate <= cfg.maxAge
      ensures forall id :: id in tracks ==> tracks[id] == old(tracks)[id]
      ensures View() == State(Swept(old(View().tracks), cfg.maxAge), old(View().nextID))
    {
      var todo := tracks.Keys;
      while todo != {}
        invariant Valid() && todo <= tracks.Keys <= old(tracks).Keys
        invariant forall id :: id in tracks ==> tracks[id] == old(tracks)[id]
        invariant forall id :: id in old(tracks) && id !in todo ==>
          (id in tracks <==> old(tracks)[id].timeSinceUpdate <= cfg.maxAge)
        decreases todo
      {
        var id :| id in todo;
        todo := todo - {id};
        if tracks[id].timeSinceUpdate > cfg.maxAge {
          tracks := tracks - {id};
        }
      }
      ViewIs(Swept(old(View().tracks), cfg.maxAge));
    }

    method ShouldRecognize(track: Track, interval: int, now: int) returns (should: bool)
      ensures should == Tracking.ShouldRecognize(cfg, track.State(), interval, now)
    {
      if track.hits < cfg.minHits {
        return false;
      }
      if track.embedding.None? {
        return true;
      }
      return now - track.lastRecognized >= interval;
    }

    /** The first three loops. */
    method AgeAndMatch(dets: seq<Detection>)
      returns (updates: seq<TrackUpdate>, detMatched: seq<bool>, ghost assign: seq<string>)
      requires Valid()
      modifies tracks.Values
      ensures Valid()
      ensures |assign| == |dets| && StableMatch(dets, old(View().tracks), assign)
      ensures |detMatched| == |dets| && forall i :: 0 <= i < |dets| ==> (detMatched[i] <==> assign[i] != "")
      ensures forall id :: id in tracks ==> tracks[id].State() == Handed(AgedAll(old(View().tracks)), dets, assign, id)
      ensures Reported(updates) == Matches(assign)
      ensures forall u :: u in updates ==> u.track in tracks.Values
    {
      hide StableMatch, Handed, Minted, MatchBy, Enumerates, Lists, Reported, Matches;
      ghost var was := View();
      NoEmptyName(cfg, was) by {
        assert WellFormed(cfg, was);
      }
      AgeAll();
      assert View().tracks == AgedAll(was.tracks);
      var list := TrackList();
      updates, detMatched, assign := MatchDetections(dets, list);
      AgeingKeepsBoxes(dets, was.tracks, assign);
    }

    lemma ViewIs(m: map<string, TrackState>)
      requires forall id :: id in tracks <==> id in m
      requires forall id :: id in tracks ==> tracks[id].State() == m[id]
      ensures View().tracks == m
    {
    }

    lemma AllHeld(updates: seq<TrackUpdate>)
      requires Valid() && forall u :: u in updates ==> u.track in tracks.Values
      ensures forall u :: u in updates ==> HoldsMid(u.track, View())
    {
    }

    /** Everything up to the sweep. */
    method MatchAndCreate(dets: seq<Detection>) returns (updates: seq<TrackUpdate>, ghost assign: seq<string>)
      requires Valid()
      modifies this`tracks, this`nextID, tracks.Values
      ensures Valid()
      ensures |assign| == |dets| && StableMatch(dets, old(View().tracks), assign)
      ensures View() == Mid(cfg, old(View()), dets, assign)
      ensures Reported(updates) == Reports(cfg.stream, old(nextID), assign)
      ensures forall u :: u in updates ==> u.track in tracks.Values
      ensures forall id :: id in tracks ==> tracks[id] in old(tracks.Values) || fresh(tracks[id])
    {
      hide StableMatch, Handed, Fresh, Refreshed, Owners, News, Matches, Unmatched, Minted, AgedAll, Reported, Tracker.View;
      ghost var was := View();
      assert WellFormed(cfg, was) && was.tracks.Keys == tracks.Keys && was.nextID == nextID by { ViewFacts(); }
      var matches, detMatched;
      matches, detMatched, assign := AgeAndMatch(dets);
      RefreshedAt(cfg, was, dets, assign);
      MatchesAreTracks(dets, was.tracks, assign);
      ghost var mid := Mid(cfg, was, dets, assign);
      var news := CreateTracks(dets, detMatched, assign);
      ReportedConcat(matches, news);
      updates := matches + news;
      forall id | id in tracks
        ensures tracks[id].State() == mid.tracks[id]
        ensures tracks[id] in old(tracks.Values) || fresh(tracks[id])
      {
        if id in was.tracks {
          assert tracks[id] == old(tracks)[id] && tracks[id] in old(tracks).Values;
        } else {
          OwnersCover(cfg, was, dets, assign, id);
        }
      }
      ViewIs(mid.tracks);
      ViewFacts();
    }

    lemma ViewFacts()
      requires Valid()
      ensures WellFormed(cfg, View()) && View().tracks.Keys == tracks.Keys && View().nextID == nextID
    {
    }

    /** The whole call.  `assign` names the track each detection was matched to. */
    method Update(dets: seq<Detection>) returns (updates: seq<TrackUpdate>, ghost assign: seq<string>)
      requires Valid()
      modifies this`tracks, this`nextID, tracks.Values
      ensures Valid()
      ensures |assign| == |dets| && StableMatch(dets, old(View().tracks), assign)
      ensures View() == After(cfg, old(View()), dets, assign)
      ensures Reported(updates) == Reports(cfg.stream, old(nextID), assign)
      ensures forall u :: u in updates ==> HoldsMid(u.track, Mid(cfg, old(View()), dets, assign))
      ensures forall u :: u in updates && u.track.id in tracks ==> tracks[u.track.id] == u.track
      ensures forall u :: u in updates ==> u.track in old(tracks.Values) || fresh(u.track)
      ensures forall id :: id in tracks ==> tracks[id] in old(tracks.Values) || fresh(tracks[id])
    {
      hide StableMatch, Mid, Minted, Swept, View, Reported, Reports;
      updates, assign := MatchAndCreate(dets);
      AllHeld(updates);
      Sweep();
    }
  }

  /** A track that is new to the map was opened for an unmatched detection. */
  lemma OwnersCover(cfg: Config, s: State, dets: seq<Detection>, assign: seq<string>, id: string)
    requires WellFormed(cfg, s) && StableMatch(dets, s.tracks, assign)
    requires id in Owners(cfg.stream, s.nextID, assign) && id !in s.tracks
    ensures exists i :: 0 <= i < |assign| && assign[i] == "" && Owners(cfg.stream, s.nextID, assign)[i] == id
  {
    hide Achieved, IouWith, Owners;
    var i := IndexOf(Owners(cfg.stream, s.nextID, assign), id);
    OwnerIsNewOrMatched(cfg, s, dets, assign, i);
  }

  ghost predicate HoldsMid(tr: Track, mid: State)
    reads tr
  {
    tr.id in mid.tracks && tr.State() == mid.tracks[tr.id]
  }

  lemma MatchesAreTracks(dets: seq<Detection>, tracks: map<string, TrackState>, assign: seq<string>)
    requires StableMatch(dets, tracks, assign)
    ensures forall i :: 0 <= i < |assign| && assign[i] != "" ==> assign[i] in tracks
  {
  }

  // ---- how the loops add up ----

  ghost function AgedAll(tracks: map<string, TrackState>): map<string, TrackState> {
    map id | id in tracks :: Aged(tracks[id])
  }

  /** Ageing moves no box, so matching may look at the aged tracks. */
  lemma AgeingKeepsBoxes(dets: seq<Detection>, tracks: map<string, TrackState>, assign: seq<string>)
    requires StableMatch(dets, AgedAll(tracks), assign)
    ensures StableMatch(dets, tracks, assign)
  {
    hide IouWith;
    SameOverlaps(dets, tracks);
    forall i, t | 0 <= i < |dets| && t in tracks && IouWith(dets[i], tracks[t]) > Achieved(dets, tracks, assign, i)
      ensures t in assign[..i]
    {
      assert IouWith(dets[i], AgedAll(tracks)[t]) > Achieved(dets, AgedAll(tracks), assign, i);
    }
  }

  lemma SameOverlaps(dets: seq<Detection>, tracks: map<string, TrackState>)
    ensures forall i, t :: 0 <= i < |dets| && t in tracks ==>
      IouWith(dets[i], AgedAll(tracks)[t]) == IouWith(dets[i], tracks[t])
  {
    hide Iou;
  }

  lemma NoEmptyName(cfg: Config, s: State)
    requires WellFormed(cfg, s)
    ensures "" !in s.tracks
  {
    forall id | id in s.tracks ensures id != "" {
      var k :| 1 <= k <= s.nextID && id == TrackId(cfg.stream, k);
    }
  }

  /** The specified tracks, seen through the loops: old ones aged then handed out, new ones fresh. */
  lemma RefreshedAt(cfg: Config, s: State, dets: seq<Detection>, assign: seq<string>)
    requires WellFormed(cfg, s) && StableMatch(dets, s.tracks, assign)
    ensures var o := Owners(cfg.stream, s.nextID, assign);
      var m := Mid(cfg, s, dets, assign).tracks;
      && (forall id :: id in m <==> id in s.tracks || id in o)
      && (forall id :: id in s.tracks ==> m[id] == Handed(AgedAll(s.tracks), dets, assign, id))
      && (forall i :: 0 <= i < |o| && assign[i] == "" ==> m[o[i]] == Fresh(o[i], dets[i]))
  {
    hide Achieved, IouWith;
    var o := Owners(cfg.stream, s.nextID, assign);
    var m := Mid(cfg, s, dets, assign).tracks;
    NoEmptyName(cfg, s);
    OwnersDistinct(cfg, s, dets, assign);
    forall i | 0 <= i < |o|
      ensures assign[i] == "" ==> m[o[i]] == Fresh(o[i], dets[i])
      ensures assign[i] != "" ==> o[i] == assign[i]
    {
      OwnerIsNewOrMatched(cfg, s, dets, assign, i);
      OwnerAt(cfg, s.nextID, assign, i);
      IndexOfDistinct(o, i);
    }
    forall id | id in s.tracks ensures m[id] == Handed(AgedAll(s.tracks), dets, assign, id) {
      RefreshedOld(cfg, s, dets, assign, id);
    }
  }

  lemma RefreshedOld(cfg: Config, s: State, dets: seq<Detection>, assign: seq<string>, id: string)
    requires WellFormed(cfg, s) && StableMatch(dets, s.tracks, assign) && id in s.tracks
    ensures Mid(cfg, s, dets, assign).tracks[id] == Handed(AgedAll(s.tracks), dets, assign, id)
  {
    hide Achieved, IouWith, Owners;
    OldOwner(cfg, s, dets, assign, id);
  }

  /** An old track owns a detection exactly when it was matched to it. */
  lemma OldOwner(cfg: Config, s: State, dets: seq<Detection>, assign: seq<string>, id: string)
    requires WellFormed(cfg, s) && StableMatch(dets, s.tracks, assign) && id in s.tracks
    ensures var o := Owners(cfg.stream, s.nextID, assign);
      (id in o <==> id in assign) && (id in o ==> IndexOf(o, id) == IndexOf(assign, id))
  {
    hide Achieved, IouWith, Owners, IndexOf;
    var o := Owners(cfg.stream, s.nextID, assign);
    NoEmptyName(cfg, s);
    OwnersDistinct(cfg, s, dets, assign);
    if id in o {
      var i := IndexOf(o, id);
      OwnerIsNewOrMatched(cfg, s, dets, assign, i);
      OwnerAt(cfg, s.nextID, assign, i);
      IndexOfDistinct(assign, i);
    }
    if id in assign {
      var i := IndexOf(assign, id);
      OwnerAt(cfg, s.nextID, assign, i);
      assert o[i] == id;
    }
  }

  /** The bookkeeping of the matching loop after |assign| detections. */
  ghost predicate Handing(dets: seq<Detection>, pre: map<string, TrackState>, list: seq<string>, assign: seq<string>,
                          matched: set<string>, detMatched: seq<bool>)
  {
    && |detMatched| == |assign| <= |dets|
    && (forall t :: t in list ==> t in pre)
    && assign == MatchBy(dets[..|assign|], pre, list)
    && (forall id :: id in matched <==> id in assign && id != "")
    && (forall i :: 0 <= i < |assign| ==> (detMatched[i] <==> assign[i] != ""))
  }

  /** One turn finds what it would have found before the loop: only matched tracks have moved. */
  lemma HandingStep(dets: seq<Detection>, pre: map<string, TrackState>, now: map<string, TrackState>, list: seq<string>,
                    assign: seq<string>, matched: set<string>, detMatched: seq<bool>, best: string)
    requires Handing(dets, pre, list, assign, matched, detMatched) && |assign| < |dets| && "" !in pre
    requires now.Keys == pre.Keys && forall id :: id in pre ==> now[id] == Handed(pre, dets, assign, id)
    requires best == Best(dets[|assign|], now, list, matched)
    ensures var matched' := if best != "" then matched + {best} else matched;
      Handing(dets, pre, list, assign + [best], matched', detMatched + [best != ""])
    ensures forall id :: id in pre ==>
      Handed(pre, dets, assign + [best], id)
      == if id == best then Seen(Handed(pre, dets, assign, id), dets[|assign|]) else Handed(pre, dets, assign, id)
  {
    hide Best, MatchBy, IouWith, Seen;
    SameBest(dets, pre, now, list, assign, matched);
    NewTurn(dets, pre, list, assign, matched, detMatched, best);
    HandedSnoc(pre, dets, assign, best);
    hide Handing;
  }

  lemma SameBest(dets: seq<Detection>, pre: map<string, TrackState>, now: map<string, TrackState>, list: seq<string>,
                 assign: seq<string>, matched: set<string>)
    requires |assign| < |dets| && "" !in pre && forall t :: t in list ==> t in pre
    requires forall id :: id in matched <==> id in assign && id != ""
    requires now.Keys == pre.Keys && forall id :: id in pre ==> now[id] == Handed(pre, dets, assign, id)
    ensures var b := Best(dets[|assign|], pre, list, Taken(assign));
      b == Best(dets[|assign|], now, list, matched) && (b != "" ==> b in pre && b !in assign)
  {
    hide Best, IouWith, Seen;
    assert forall id :: id in pre && id !in matched ==> now[id] == pre[id];
    BestSame(dets[|assign|], pre, now, list, Taken(assign), matched);
    BestIsBest(dets[|assign|], pre, list, Taken(assign));
  }

  lemma NewTurn(dets: seq<Detection>, pre: map<string, TrackState>, list: seq<string>, assign: seq<string>,
                matched: set<string>, detMatched: seq<bool>, best: string)
    requires Handing(dets, pre, list, assign, matched, detMatched) && |assign| < |dets|
    requires best == Best(dets[|assign|], pre, list, Taken(assign))
    ensures var matched' := if best != "" then matched + {best} else matched;
      Handing(dets, pre, list, assign + [best], matched', detMatched + [best != ""])
  {
    hide Best, MatchBy, Taken;
    var n := |assign|;
    SliceSnoc(dets, n);
    MatchBySnoc(dets[..n], pre, list, dets[n], assign);
  }

  /** The inner loop sees only the boxes of tracks that are free. */
  lemma {:induction false} BestSame(d: Detection, tracks: map<string, TrackState>, now: map<string, TrackState>,
                                    list: seq<string>, taken: set<string>, matched: set<string>)
    requires now.Keys == tracks.Keys && "" !in tracks
    requires forall t :: t in list ==> t in tracks && (t in taken <==> t in matched)
    requires forall t :: t in list && t !in taken ==> now[t].box == tracks[t].box
    ensures Best(d, tracks, list, taken) == Best(d, now, list, matched)
  {
    hide Iou;
    if list != [] {
      var p := list[..|list| - 1];
      BestSame(d, tracks, now, p, taken, matched);
      BestIsBest(d, tracks, p, taken);
    }
  }

  lemma HandingDone(dets: seq<Detection>, pre: map<string, TrackState>, list: seq<string>, assign: seq<string>,
                    matched: set<string>, detMatched: seq<bool>)
    requires Handing(dets, pre, list, assign, matched, detMatched) && |assign| == |dets|
    requires "" !in pre && Enumerates(list, pre)
    ensures assign == MatchBy(dets, pre, list) && StableMatch(dets, pre, assign) && |detMatched| == |dets|
    ensures forall i :: 0 <= i < |dets| ==> (detMatched[i] <==> assign[i] != "")
  {
    assert dets[..|dets|] == dets;
    MatchByIsStable(dets, pre, list);
  }

  lemma NothingCreated(cfg: Config, nextID: nat, assign: seq<string>)
    ensures Owners(cfg.stream, nextID, assign[..0]) == [] && Unmatched(assign[..0]) == 0
    ensures Reported([]) == News(cfg.stream, nextID, assign[..0])
  {
  }

  lemma CreatedSnoc(cfg: Config, nextID: nat, assign: seq<string>, i: nat)
    requires i < |assign|
    ensures var u, u' := Unmatched(assign[..i]), Unmatched(assign[..i + 1]);
      && u' == (if assign[i] == "" then u + 1 else u)
      && Owners(cfg.stream, nextID, assign[..i + 1]) == Owners(cfg.stream, nextID, assign[..i])
           + [if assign[i] != "" then assign[i] else TrackId(cfg.stream, nextID + u')]
      && News(cfg.stream, nextID, assign[..i + 1]) == News(cfg.stream, nextID, assign[..i])
           + if assign[i] == "" then [Report(TrackId(cfg.stream, nextID + u'), true)] else []
  {
    assert assign[..i + 1][..i] == assign[..i];
  }

  lemma NothingMatched(pre: map<string, TrackState>, dets: seq<Detection>, list: seq<string>)
    requires forall t :: t in list ==> t in pre
    ensures Handing(dets, pre, list, [], {}, []) && Reported([]) == Matches([])
    ensures forall id :: id in pre ==> Handed(pre, dets, [], id) == pre[id]
  {
  }
}
