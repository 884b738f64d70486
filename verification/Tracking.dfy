/**
What one tracker update and one recognition pass mean (internal/vision/track.go and the loop of
`ProcessFrame` in internal/vision/pipeline.go), as functions of the state before the call.

Map iteration order is arbitrary in the source.  The match is therefore specified by what every
order must produce: `StableMatch`.
*/
module Tracking {
  import opened Geometry
  import opened Nms
  import opened Options

  datatype TrackState = TrackState(
    id: string,
    box: Box,
    confidence: real,
    hits: int,
    timeSinceUpdate: int,
    embedding: Option<seq<real>>,
    lastRecognized: int)

  datatype State = State(tracks: map<string, TrackState>, nextID: nat)

  datatype Config = Config(stream: string, maxAge: int, minHits: int)

  const MIN_IOU := 0.3

  // ---- track names ----

  function Digits(n: nat): (r: string)
    ensures |r| > 0
  {
    if n < 10 then [('0' as int + n) as char] else Digits(n / 10) + [('0' as int + n % 10) as char]
  }

  /** fmt.Sprintf("%s_%d", stream, n) */
  function TrackId(stream: string, n: nat): string {
    stream + "_" + Digits(n)
  }

  lemma {:induction false} DigitsInjective(m: nat, n: nat)
    requires Digits(m) == Digits(n)
    ensures m == n
    decreases m + n
  {
    var d, e := Digits(m), Digits(n);
    assert d[|d| - 1] == e[|e| - 1];
    assert m % 10 == n % 10;
    if m >= 10 && n >= 10 {
      assert d[..|d| - 1] == Digits(m / 10) && e[..|e| - 1] == Digits(n / 10);
      DigitsInjective(m / 10, n / 10);
    }
  }

  /** Numbers name tracks injectively, and never by the empty string the matcher uses for "none". */
  lemma TrackIdInjective(stream: string, m: nat, n: nat)
    ensures TrackId(stream, m) != ""
    ensures TrackId(stream, m) == TrackId(stream, n) ==> m == n
  {
    if TrackId(stream, m) == TrackId(stream, n) {
      var k := |stream| + 1;
      assert TrackId(stream, m)[k..] == Digits(m);
      assert TrackId(stream, n)[k..] == Digits(n);
      DigitsInjective(m, n);
    }
  }

  /** The number a string of decimal digits stands for. */
  function Reading(digits: string): int {
    if digits == "" then 0
    else Reading(digits[..|digits| - 1]) * 10 + (digits[|digits| - 1] as int - '0' as int)
  }

  /** A track name is the stream, an underscore and the number in decimal, without leading zeros. */
  lemma {:induction false} TrackIdReads(stream: string, n: nat)
    ensures Reading(Digits(n)) == n && (n > 0 ==> Digits(n)[0] != '0')
    ensures forall i :: 0 <= i < |Digits(n)| ==> '0' <= Digits(n)[i] <= '9'
    ensures TrackId(stream, n) == stream + "_" + Digits(n)
  {
    if n < 10 {
      assert Reading("") == 0 && Digits(n)[..0] == "";
    } else {
      TrackIdReads(stream, n / 10);
      assert Digits(n)[..|Digits(n)| - 1] == Digits(n / 10);
    }
  }

  ghost predicate Minted(stream: string, upTo: nat, id: string) {
    exists k :: 1 <= k <= upTo && id == TrackId(stream, k)
  }

  ghost predicate WellFormed(cfg: Config, s: State) {
    forall id :: id in s.tracks ==> s.tracks[id].id == id && Minted(cfg.stream, s.nextID, id)
  }

  // ---- matching ----

  function IouWith(d: Detection, t: TrackState): real {
    Iou(d.box, t.box)
  }

  /** What detection i got: its track's overlap, or the threshold if it got none. */
  function Achieved(dets: seq<Detection>, tracks: map<string, TrackState>, assign: seq<string>, i: nat): real
    requires i < |dets| == |assign|
  {
    if assign[i] in tracks then IouWith(dets[i], tracks[assign[i]]) else MIN_IOU
  }

  predicate Distinct(s: seq<string>) {
    forall i, j :: 0 <= i < j < |s| && s[i] != "" ==> s[i] != s[j]
  }

  /** `assign[i]` is the track given to detection i, "" for none.  No track is given twice; every match
      overlaps by more than the threshold; and a track that detection i would rather have had went to
      an earlier detection. */
  ghost predicate StableMatch(dets: seq<Detection>, tracks: map<string, TrackState>, assign: seq<string>) {
    && |assign| == |dets|
    && Distinct(assign)
    && (forall i :: 0 <= i < |assign| && assign[i] != "" ==>
          assign[i] in tracks && IouWith(dets[i], tracks[assign[i]]) > MIN_IOU)
    && (forall i, t :: 0 <= i < |dets| && t in tracks && IouWith(dets[i], tracks[t]) > Achieved(dets, tracks, assign, i)
          ==> t in assign[..i])
  }

  // ---- the matching loops over one list of the tracks ----

  /** The list names every track once, in any order. */
  ghost predicate Enumerates(list: seq<string>, tracks: map<string, TrackState>) {
    Distinct(list) && forall t :: t in list <==> t in tracks
  }

  function Taken(assign: seq<string>): set<string> {
    set t | t in assign
  }

  /** Overlap to beat once b has been picked. */
  function ToBeat(d: Detection, tracks: map<string, TrackState>, b: string): real {
    if b in tracks then IouWith(d, tracks[b]) else MIN_IOU
  }

  /** The inner loop: the first of the free tracks with the largest overlap above the threshold, or "". */
  function Best(d: Detection, tracks: map<string, TrackState>, list: seq<string>, taken: set<string>): (b: string)
    requires forall t :: t in list ==> t in tracks
    ensures b != "" ==> b in list
  {
    if list == [] then ""
    else
      var t, b := list[|list| - 1], Best(d, tracks, list[..|list| - 1], taken);
      if t !in taken && IouWith(d, tracks[t]) > ToBeat(d, tracks, b) then t else b
  }

  /** The outer loop: each detection in turn over the same list. */
  function MatchBy(dets: seq<Detection>, tracks: map<string, TrackState>, list: seq<string>): (r: seq<string>)
    requires forall t :: t in list ==> t in tracks
    ensures |r| == |dets|
  {
    if dets == [] then []
    else
      var p := MatchBy(dets[..|dets| - 1], tracks, list);
      p + [Best(dets[|dets| - 1], tracks, list, Taken(p))]
  }

  lemma {:induction false} BestIsBest(d: Detection, tracks: map<string, TrackState>, list: seq<string>, taken: set<string>)
    requires "" !in tracks && forall t :: t in list ==> t in tracks
    ensures var b := Best(d, tracks, list, taken);
      && (b != "" ==> b !in taken && IouWith(d, tracks[b]) > MIN_IOU)
      && forall t :: t in list && t !in taken ==> IouWith(d, tracks[t]) <= ToBeat(d, tracks, b)
  {
    hide IouWith;
    if list != [] {
      BestIsBest(d, tracks, list[..|list| - 1], taken);
    }
  }

  /** Every order gives a stable match. */
  lemma {:induction false} MatchByIsStable(dets: seq<Detection>, tracks: map<string, TrackState>, list: seq<string>)
    requires "" !in tracks && Enumerates(list, tracks)
    ensures StableMatch(dets, tracks, MatchBy(dets, tracks, list))
    decreases |dets|
  {
    if dets != [] {
      hide *;
      var n := |dets| - 1;
      MatchByIsStable(dets[..n], tracks, list);
      StableTurn(dets[..n], tracks, list, dets[n], MatchBy(dets[..n], tracks, list));
      SliceSnoc(dets, n);
      assert dets[..n + 1] == dets;
    }
  }

  lemma StableTurn(q: seq<Detection>, tracks: map<string, TrackState>, list: seq<string>, d: Detection, p: seq<string>)
    requires "" !in tracks && Enumerates(list, tracks) && p == MatchBy(q, tracks, list) && StableMatch(q, tracks, p)
    ensures StableMatch(q + [d], tracks, MatchBy(q + [d], tracks, list))
  {
    hide Best, IouWith, Distinct, StableMatch, MatchBy;
    BestIsBest(d, tracks, list, Taken(p));
    MatchBySnoc(q, tracks, list, d, p);
    StableExtend(q, tracks, p, d, Best(d, tracks, list, Taken(p)));
  }

  /** The tracks a match hands out, in detection order. */
  function Winners(assign: seq<string>): seq<string> {
    if assign == [] then []
    else
      var last := assign[|assign| - 1];
      Winners(assign[..|assign| - 1]) + if last != "" then [last] else []
  }

  lemma {:induction false} WinnersAre(assign: seq<string>)
    requires Distinct(assign)
    ensures Distinct(Winners(assign)) && forall t :: t in Winners(assign) <==> t in assign && t != ""
  {
    if assign != [] {
      var p := assign[..|assign| - 1];
      WinnersAre(p);
      if assign[|assign| - 1] != "" {
        NotTakenBefore(assign, |assign| - 1);
      }
      assert assign == p + [assign[|assign| - 1]];
    }
  }

  lemma {:induction false} WinnersPrefix(assign: seq<string>, n: nat)
    requires n <= |assign|
    ensures Winners(assign[..n]) <= Winners(assign)
  {
    if n == |assign| {
      assert assign[..n] == assign;
    } else {
      WinnersPrefix(assign[..|assign| - 1], n);
      assert assign[..|assign| - 1][..n] == assign[..n];
    }
  }

  /** The elements of a set, in some order. */
  lemma {:induction false} Listing(keys: set<string>) returns (list: seq<string>)
    ensures Distinct(list) && forall t :: t in list <==> t in keys
    decreases keys
  {
    list := [];
    if keys != {} {
      var t :| t in keys;
      list := Listing(keys - {t});
      list := list + [t];
    }
  }

  /** The first free track of the list wins if no free one does better. */
  lemma {:induction false} FirstFreeWins(d: Detection, tracks: map<string, TrackState>, list: seq<string>,
                                         taken: set<string>, k: nat)
    requires "" !in tracks && (forall t :: t in list ==> t in tracks) && k < |list|
    requires list[k] !in taken && IouWith(d, tracks[list[k]]) > MIN_IOU
    requires forall j :: 0 <= j < k ==> list[j] in taken
    requires forall t :: t in list && t !in taken ==> IouWith(d, tracks[t]) <= IouWith(d, tracks[list[k]])
    ensures Best(d, tracks, list, taken) == list[k]
    decreases |list|
  {
    hide IouWith;
    var p := list[..|list| - 1];
    if k == |list| - 1 {
      NoneFree(d, tracks, p, taken);
    } else {
      assert forall t :: t in p ==> t in list;
      FirstFreeWins(d, tracks, p, taken, k);
    }
  }

  lemma {:induction false} NoneFree(d: Detection, tracks: map<string, TrackState>, list: seq<string>, taken: set<string>)
    requires forall t :: t in list ==> t in tracks
    requires forall t :: t in list && t !in taken ==> IouWith(d, tracks[t]) <= MIN_IOU
    requires "" !in tracks
    ensures Best(d, tracks, list, taken) == ""
  {
    hide IouWith;
    if list != [] {
      NoneFree(d, tracks, list[..|list| - 1], taken);
    }
  }

  lemma DistinctConcat(a: seq<string>, b: seq<string>)
    requires Distinct(a) && Distinct(b) && forall t :: t in a && t != "" ==> t !in b
    ensures Distinct(a + b) && forall t :: t in a + b <==> t in a || t in b
  {
    var s := a + b;
    forall i, j | 0 <= i < j < |s| && s[i] != "" ensures s[i] != s[j] {
      if i < |a| <= j {
        assert a[i] in a && b[j - |a|] in b;
      }
    }
  }

  /** Every stable match is what the loops find in some order: the winners in detection order, then the
      tracks nobody gets. */
  lemma StableComesFromOrder(dets: seq<Detection>, tracks: map<string, TrackState>, a: seq<string>) returns (list: seq<string>)
    requires StableMatch(dets, tracks, a) && "" !in tracks
    ensures Enumerates(list, tracks) && MatchBy(dets, tracks, list) == a
  {
    MatchLength(dets, tracks, a);
    hide IouWith, MatchBy;
    WinnersAre(a);
    var rest := Listing(tracks.Keys - Taken(a));
    list := Winners(a) + rest;
    DistinctConcat(Winners(a), rest);
    assert Enumerates(list, tracks);
    hide StableMatch;
    FollowsOrder(dets, tracks, a, list, |dets|);
    assert dets[..|dets|] == dets && a[..|dets|] == a;
  }

  lemma MatchBySnoc(dets: seq<Detection>, tracks: map<string, TrackState>, list: seq<string>, d: Detection, p: seq<string>)
    requires (forall t :: t in list ==> t in tracks) && MatchBy(dets, tracks, list) == p
    ensures MatchBy(dets + [d], tracks, list) == p + [Best(d, tracks, list, Taken(p))]
  {
    hide Best;
    assert (dets + [d])[..|dets|] == dets;
  }

  lemma SliceSnoc<T>(s: seq<T>, i: nat)
    requires i < |s|
    ensures s[..i + 1] == s[..i] + [s[i]]
  {
  }

  lemma {:induction false} FollowsOrder(dets: seq<Detection>, tracks: map<string, TrackState>, a: seq<string>,
                                        list: seq<string>, n: nat)
    requires StableMatch(dets, tracks, a) && "" !in tracks && Enumerates(list, tracks) && n <= |dets|
    requires Winners(a) <= list
    ensures MatchBy(dets[..n], tracks, list) == a[..n]
  {
    MatchLength(dets, tracks, a);
    hide StableMatch, Best, Taken, Winners, MatchBy, Distinct;
    if n == 0 {
      assert MatchBy(dets[..0], tracks, list) == [];
    } else {
      FollowsOrder(dets, tracks, a, list, n - 1);
      MatchBySnoc(dets[..n - 1], tracks, list, dets[n - 1], a[..n - 1]);
      PickOfTurn(dets, tracks, a, list, n - 1);
      SliceSnoc(dets, n - 1);
      SliceSnoc(a, n - 1);
    }
  }

  lemma PickOfTurn(dets: seq<Detection>, tracks: map<string, TrackState>, a: seq<string>, list: seq<string>, i: nat)
    requires StableMatch(dets, tracks, a) && "" !in tracks && Enumerates(list, tracks) && i < |dets|
    requires Winners(a) <= list
    ensures Best(dets[i], tracks, list, Taken(a[..i])) == a[i]
  {
    hide IouWith, Best, Taken, Winners;
    var taken := Taken(a[..i]);
    assert forall t :: t in taken <==> t in a[..i] by { TakenAre(a[..i]); }
    if a[i] == "" {
      NoneFree(dets[i], tracks, list, taken);
    } else {
      NotTakenBefore(a, i);
      var k := PlaceOfWinner(a, list, i);
      FirstFreeWins(dets[i], tracks, list, taken, k);
    }
  }

  lemma TakenAre(a: seq<string>)
    ensures forall t :: t in Taken(a) <==> t in a
  {
  }

  /** In the winners' order, all before the winner of turn i are taken by then. */
  lemma PlaceOfWinner(a: seq<string>, list: seq<string>, i: nat) returns (k: nat)
    requires Distinct(a) && Winners(a) <= list && i < |a| && a[i] != ""
    ensures k < |list| && list[k] == a[i] && forall j :: 0 <= j < k ==> list[j] in a[..i]
  {
    k := |Winners(a[..i])|;
    WinnersPrefix(a, i + 1);
    assert a[..i + 1][..i] == a[..i];
    assert Winners(a[..i + 1]) == Winners(a[..i]) + [a[i]];
    hide Winners;
    assert Winners(a[..i]) == list[..k];
    WinnersAre(a[..i]);
    forall j | 0 <= j < k ensures list[j] in a[..i] {
      assert list[j] == Winners(a[..i])[j];
    }
  }

  /** Every matched detection prefers its track strictly to all others still free at its turn. */
  ghost predicate Undisputed(dets: seq<Detection>, tracks: map<string, TrackState>, assign: seq<string>)
    requires |dets| == |assign|
  {
    forall i, u :: 0 <= i < |assign| && assign[i] != "" && u in tracks && u != assign[i] && u !in assign[..i]
      ==> IouWith(dets[i], tracks[u]) < Achieved(dets, tracks, assign, i)
  }

  /** The matching loops over one list of the tracks give the same match whatever order map iteration put
      them in, exactly if that match is undisputed. */
  lemma MatchIgnoresMapOrder(dets: seq<Detection>, tracks: map<string, TrackState>, a: seq<string>)
    requires StableMatch(dets, tracks, a) && "" !in tracks
    ensures Undisputed(dets, tracks, a) <==> forall list :: Enumerates(list, tracks) ==> MatchBy(dets, tracks, list) == a
  {
    MatchLength(dets, tracks, a);
    hide IouWith, StableMatch, Undisputed, MatchBy, Enumerates;
    if Undisputed(dets, tracks, a) {
      forall list | Enumerates(list, tracks) ensures MatchBy(dets, tracks, list) == a {
        MatchByIsStable(dets, tracks, list);
        UndisputedIsOnly(dets, tracks, a, MatchBy(dets, tracks, list));
      }
    } else {
      var i, u := Dispute(dets, tracks, a);
      var b := DisputeAllowsAnother(dets, tracks, a, i, u);
      var list := StableComesFromOrder(dets, tracks, b);
      assert MatchBy(dets, tracks, list) != a;
    }
  }

  lemma UndisputedIsOnly(dets: seq<Detection>, tracks: map<string, TrackState>, a: seq<string>, b: seq<string>)
    requires StableMatch(dets, tracks, a) && StableMatch(dets, tracks, b) && "" !in tracks && Undisputed(dets, tracks, a)
    ensures b == a
  {
    hide IouWith;
    MatchPrefixUnique(dets, tracks, a, b, |dets|);
    assert a[..|dets|] == a && b[..|dets|] == b;
  }

  /** What a detection gets, in terms of the overlap ratio: a track it overlaps by more than 0.3, and by at
      least as much as any track that is free at its turn; none if it overlaps no free track by more
      than 0.3. */
  lemma MatchByIou(dets: seq<Detection>, tracks: map<string, TrackState>, a: seq<string>, i: nat)
    requires StableMatch(dets, tracks, a) && "" !in tracks && i < |dets|
    ensures |a| == |dets|
    ensures a[i] != "" ==> a[i] in tracks && a[i] !in a[..i] && Iou(dets[i].box, tracks[a[i]].box) > 0.3
    ensures a[i] != "" ==> forall t :: t in tracks && t !in a[..i] ==>
      Iou(dets[i].box, tracks[t].box) <= Iou(dets[i].box, tracks[a[i]].box)
    ensures a[i] == "" ==> forall t :: t in tracks && t !in a[..i] ==> Iou(dets[i].box, tracks[t].box) <= 0.3
  {
    hide Iou;
    if a[i] != "" {
      NotTakenBefore(a, i);
    }
    forall t | t in tracks && t !in a[..i] ensures IouWith(dets[i], tracks[t]) <= Achieved(dets, tracks, a, i) {
    }
  }

  lemma MatchLength(dets: seq<Detection>, tracks: map<string, TrackState>, assign: seq<string>)
    requires StableMatch(dets, tracks, assign)
    ensures |assign| == |dets|
  {
  }

  lemma {:induction false} MatchPrefixUnique(dets: seq<Detection>, tracks: map<string, TrackState>,
                                             a: seq<string>, b: seq<string>, n: nat)
    requires StableMatch(dets, tracks, a) && StableMatch(dets, tracks, b)
    requires Undisputed(dets, tracks, a) && "" !in tracks && n <= |dets|
    ensures a[..n] == b[..n]
  {
    MatchLength(dets, tracks, a);
    MatchLength(dets, tracks, b);
    hide StableMatch, Undisputed;
    if n > 0 {
      MatchPrefixUnique(dets, tracks, a, b, n - 1);
      SameTurn(dets, tracks, a, b, n - 1);
      SliceSnoc(a, n - 1);
      SliceSnoc(b, n - 1);
    }
  }

  /** With the same tracks taken, an undisputed match leaves another no choice. */
  lemma SameTurn(dets: seq<Detection>, tracks: map<string, TrackState>, a: seq<string>, b: seq<string>, i: nat)
    requires StableMatch(dets, tracks, a) && StableMatch(dets, tracks, b) && Undisputed(dets, tracks, a)
    requires "" !in tracks && i < |dets| && a[..i] == b[..i]
    ensures a[i] == b[i]
  {
    if a[i] != "" {
      NotTakenBefore(a, i);
    }
    if b[i] != "" {
      NotTakenBefore(b, i);
    }
    hide Iou, IouWith, Distinct;
  }

  lemma Dispute(dets: seq<Detection>, tracks: map<string, TrackState>, a: seq<string>) returns (i: nat, u: string)
    requires |a| == |dets| && !Undisputed(dets, tracks, a)
    ensures i < |a| && a[i] != "" && u in tracks && u != a[i] && u !in a[..i]
    ensures IouWith(dets[i], tracks[u]) >= Achieved(dets, tracks, a, i)
  {
    hide IouWith, Achieved;
    i, u :| 0 <= i < |a| && a[i] != "" && u in tracks && u != a[i] && u !in a[..i]
      && IouWith(dets[i], tracks[u]) >= Achieved(dets, tracks, a, i);
  }

  /** A detection that does as well with another free track may take that one. */
  lemma DisputeAllowsAnother(dets: seq<Detection>, tracks: map<string, TrackState>, a: seq<string>, i: nat, u: string)
    returns (b: seq<string>)
    requires StableMatch(dets, tracks, a) && "" !in tracks
    requires i < |a| && a[i] != "" && u in tracks && u != a[i] && u !in a[..i]
    requires IouWith(dets[i], tracks[u]) >= Achieved(dets, tracks, a, i)
    ensures StableMatch(dets, tracks, b) && b != a
  {
    hide IouWith;
    StablePrefix(dets, tracks, a, i);
    StableExtend(dets[..i], tracks, a[..i], dets[i], u);
    assert dets[..i + 1] == dets[..i] + [dets[i]];
    hide StableMatch;
    b := Complete(dets, tracks, a[..i] + [u]);
    assert b[i] == u;
  }

  lemma StablePrefix(dets: seq<Detection>, tracks: map<string, TrackState>, a: seq<string>, n: nat)
    requires StableMatch(dets, tracks, a) && n <= |dets|
    ensures StableMatch(dets[..n], tracks, a[..n])
  {
    hide IouWith;
    forall i, t | 0 <= i < n && t in tracks && IouWith(dets[..n][i], tracks[t]) > Achieved(dets[..n], tracks, a[..n], i)
      ensures t in a[..n][..i]
    {
      assert a[..n][..i] == a[..i];
      assert Achieved(dets[..n], tracks, a[..n], i) == Achieved(dets, tracks, a, i);
    }
  }

  /** Any stable beginning can be carried on. */
  lemma {:induction false} Complete(dets: seq<Detection>, tracks: map<string, TrackState>, p: seq<string>)
    returns (b: seq<string>)
    requires |p| <= |dets| && StableMatch(dets[..|p|], tracks, p) && "" !in tracks
    ensures StableMatch(dets, tracks, b) && p <= b
    decreases |dets| - |p|
  {
    hide IouWith, StableMatch;
    var n := |p|;
    if n == |dets| {
      assert dets[..n] == dets;
      b := p;
    } else {
      var list := Listing(tracks.Keys);
      var best := Best(dets[n], tracks, list, Taken(p));
      BestIsBest(dets[n], tracks, list, Taken(p));
      StableExtend(dets[..n], tracks, p, dets[n], best);
      assert dets[..n + 1] == dets[..n] + [dets[n]];
      b := Complete(dets, tracks, p + [best]);
    }
  }

  /** One more detection with the best free track keeps the match stable. */
  lemma StableExtend(dets: seq<Detection>, pre: map<string, TrackState>, assign: seq<string>, d: Detection, best: string)
    requires StableMatch(dets, pre, assign)
    requires best != "" ==> best in pre && best !in assign && IouWith(d, pre[best]) > MIN_IOU
    requires "" !in pre
    requires forall t :: t in pre && t !in assign ==>
      IouWith(d, pre[t]) <= if best == "" then MIN_IOU else IouWith(d, pre[best])
    ensures StableMatch(dets + [d], pre, assign + [best])
  {
    hide IouWith;
    var dets', assign' := dets + [d], assign + [best];
    forall i, t | 0 <= i < |dets'| && t in pre && IouWith(dets'[i], pre[t]) > Achieved(dets', pre, assign', i)
      ensures t in assign'[..i]
    {
      if i < |dets| {
        assert Achieved(dets', pre, assign', i) == Achieved(dets, pre, assign, i);
        assert assign'[..i] == assign[..i];
      } else {
        assert assign'[..i] == assign;
      }
    }
  }

  /** No detection overlaps two tracks equally by more than the threshold. */
  ghost predicate NoTies(dets: seq<Detection>, tracks: map<string, TrackState>) {
    forall i, t, u ::
      0 <= i < |dets| && t in tracks && u in tracks && t != u && IouWith(dets[i], tracks[t]) > MIN_IOU
      ==> IouWith(dets[i], tracks[t]) != IouWith(dets[i], tracks[u])
  }

  lemma NoTiesNoDispute(dets: seq<Detection>, tracks: map<string, TrackState>, a: seq<string>)
    requires StableMatch(dets, tracks, a) && NoTies(dets, tracks)
    ensures |a| == |dets| && Undisputed(dets, tracks, a)
  {
    hide IouWith;
  }

  lemma NotTakenBefore(a: seq<string>, i: nat)
    requires Distinct(a) && i < |a| && a[i] != ""
    ensures a[i] !in a[..i]
  {
  }

  /** Suppression and matching together: a detection that overlaps a track by more than 0.7 gets it, or
      one it overlaps at least as much, unless an earlier detection took the track with an overlap
      below 0.7.  Two strong overlaps never compete. */
  lemma StrongOverlapOutcome(dets: seq<Detection>, tracks: map<string, TrackState>, assign: seq<string>, i: nat, t: string)
    requires StableMatch(dets, tracks, assign) && Separated(dets, 0.4)
    requires forall d :: d in dets ==> Proper(d.box)
    requires i < |dets| && t in tracks && t != "" && Proper(tracks[t].box) && IouWith(dets[i], tracks[t]) > 0.7
    ensures
      || (assign[i] in tracks && IouWith(dets[i], tracks[assign[i]]) >= IouWith(dets[i], tracks[t]))
      || exists j :: 0 <= j < i && assign[j] == t && MIN_IOU < IouWith(dets[j], tracks[t]) < 0.7
  {
    hide Iou;
    if IouWith(dets[i], tracks[t]) > Achieved(dets, tracks, assign, i) {
      var j :| 0 <= j < i && assign[..i][j] == t;
      assert assign[j] == t;
      assert dets[i] in dets && dets[j] in dets;
      assert !Clashes(dets[j], dets[i], 0.4);
      IouSymmetric(dets[i].box, dets[j].box);
      StrongOverlapIsUnique(dets[i].box, dets[j].box, tracks[t].box);
    }
  }

  // ---- the state after an update ----

  function Unmatched(assign: seq<string>): nat {
    if assign == [] then 0
    else Unmatched(assign[..|assign| - 1]) + if assign[|assign| - 1] == "" then 1 else 0
  }

  /** The track each detection ends up in: its match, or a new one numbered in detection order. */
  function Owners(stream: string, nextID: nat, assign: seq<string>): (r: seq<string>)
    ensures |r| == |assign|
  {
    if assign == [] then []
    else
      var last := assign[|assign| - 1];
      Owners(stream, nextID, assign[..|assign| - 1])
      + [if last != "" then last else TrackId(stream, nextID + Unmatched(assign))]
  }

  function Seen(t: TrackState, d: Detection): TrackState {
    t.(box := d.box, confidence := d.confidence, hits := t.hits + 1, timeSinceUpdate := 0)
  }

  function Fresh(id: string, d: Detection): TrackState {
    TrackState(id, d.box, d.confidence, 1, 0, None, 0)
  }

  function Aged(t: TrackState): TrackState {
    t.(timeSinceUpdate := t.timeSinceUpdate + 1)
  }

  function IndexOf(s: seq<string>, x: string): (i: nat)
    requires x in s
    ensures i < |s| && s[i] == x
  {
    if s[|s| - 1] == x then |s| - 1 else IndexOf(s[..|s| - 1], x)
  }

  /** All tracks before the sweep: seen, fresh or one call older. */
  function Refreshed(tracks: map<string, TrackState>, dets: seq<Detection>, owners: seq<string>): map<string, TrackState>
    requires |owners| == |dets|
  {
    map id | id in tracks.Keys + (set o | o in owners) ::
      if id !in owners then Aged(tracks[id])
      else if id in tracks then Seen(tracks[id], dets[IndexOf(owners, id)])
      else Fresh(id, dets[IndexOf(owners, id)])
  }

  function Swept(tracks: map<string, TrackState>, maxAge: int): map<string, TrackState> {
    map id | id in tracks && tracks[id].timeSinceUpdate <= maxAge :: tracks[id]
  }

  /** Whom the update reports: first the matched detections, then the new ones, both in order. */
  datatype Report = Report(id: string, isNew: bool)

  function Matches(assign: seq<string>): seq<Report> {
    if assign == [] then []
    else
      var last := assign[|assign| - 1];
      Matches(assign[..|assign| - 1]) + if last != "" then [Report(last, false)] else []
  }

  function News(stream: string, nextID: nat, assign: seq<string>): seq<Report> {
    if assign == [] then []
    else
      News(stream, nextID, assign[..|assign| - 1])
      + if assign[|assign| - 1] == "" then [Report(TrackId(stream, nextID + Unmatched(assign)), true)] else []
  }

  function Reports(stream: string, nextID: nat, assign: seq<string>): seq<Report> {
    Matches(assign) + News(stream, nextID, assign)
  }

  /** `Update`, before tracks are swept. */
  function Mid(cfg: Config, s: State, dets: seq<Detection>, assign: seq<string>): State
    requires |dets| == |assign|
  {
    State(Refreshed(s.tracks, dets, Owners(cfg.stream, s.nextID, assign)), s.nextID + Unmatched(assign))
  }

  function After(cfg: Config, s: State, dets: seq<Detection>, assign: seq<string>): State
    requires |dets| == |assign|
  {
    var mid := Mid(cfg, s, dets, assign);
    mid.(tracks := Swept(mid.tracks, cfg.maxAge))
  }

  // ---- facts about owners ----

  /** The owner of an unmatched detection is a new name, that of a matched one its track. */
  lemma OwnerIsNewOrMatched(cfg: Config, s: State, dets: seq<Detection>, assign: seq<string>, i: nat)
    requires WellFormed(cfg, s) && StableMatch(dets, s.tracks, assign) && i < |assign|
    ensures var o := Owners(cfg.stream, s.nextID, assign);
      o[i] != "" && (o[i] in s.tracks <==> assign[i] != "")
  {
    hide StableMatch, Owners, Unmatched, TrackId, WellFormed;
    OwnerAt(cfg, s.nextID, assign, i);
    if assign[i] == "" {
      NewNameIsNew(cfg, s, s.nextID + Unmatched(assign[..i + 1]));
    } else {
      MatchIsTrack(dets, s.tracks, assign, i);
    }
  }

  lemma MatchIsTrack(dets: seq<Detection>, tracks: map<string, TrackState>, assign: seq<string>, i: nat)
    requires StableMatch(dets, tracks, assign) && i < |assign| && assign[i] != ""
    ensures assign[i] in tracks
  {
    hide IouWith;
  }

  /** All owners differ. */
  lemma OwnersDistinct(cfg: Config, s: State, dets: seq<Detection>, assign: seq<string>)
    requires WellFormed(cfg, s) && StableMatch(dets, s.tracks, assign)
    ensures Distinct(Owners(cfg.stream, s.nextID, assign))
  {
    hide IouWith, Achieved;
    var o := Owners(cfg.stream, s.nextID, assign);
    forall i, j | 0 <= i < j < |o| ensures o[i] != o[j] {
      OwnerAt(cfg, s.nextID, assign, i);
      OwnerAt(cfg, s.nextID, assign, j);
      OwnerIsNewOrMatched(cfg, s, dets, assign, i);
      OwnerIsNewOrMatched(cfg, s, dets, assign, j);
      if assign[i] == "" && assign[j] == "" {
        UnmatchedGrows(assign, i, j);
        TrackIdInjective(cfg.stream, s.nextID + Unmatched(assign[..i + 1]), s.nextID + Unmatched(assign[..j + 1]));
      }
    }
  }

  lemma NewNameIsNew(cfg: Config, s: State, n: nat)
    requires WellFormed(cfg, s) && n > s.nextID
    ensures TrackId(cfg.stream, n) !in s.tracks && TrackId(cfg.stream, n) != ""
  {
    var id := TrackId(cfg.stream, n);
    TrackIdInjective(cfg.stream, n, n);
    if id in s.tracks {
      var k :| 1 <= k <= s.nextID && id == TrackId(cfg.stream, k);
      TrackIdInjective(cfg.stream, n, k);
    }
  }

  lemma {:induction false} OwnerAt(cfg: Config, nextID: nat, assign: seq<string>, i: nat)
    requires i < |assign|
    ensures Owners(cfg.stream, nextID, assign)[i]
         == if assign[i] != "" then assign[i] else TrackId(cfg.stream, nextID + Unmatched(assign[..i + 1]))
    ensures assign[i] == "" ==> Unmatched(assign[..i + 1]) > 0
    ensures Unmatched(assign[..i + 1]) <= Unmatched(assign)
  {
    if i == |assign| - 1 {
      assert assign[..i + 1] == assign;
    } else {
      var p := assign[..|assign| - 1];
      assert p[..i + 1] == assign[..i + 1];
      OwnerAt(cfg, nextID, p, i);
    }
  }

  lemma {:induction false} UnmatchedGrows(assign: seq<string>, i: nat, j: nat)
    requires i < j < |assign| && assign[j] == ""
    ensures Unmatched(assign[..i + 1]) < Unmatched(assign[..j + 1])
    decreases j
  {
    var p := assign[..j + 1];
    assert p[..|p| - 1] == assign[..j];
    if i + 1 < j {
      UnmatchedMonotone(assign, i + 1, j);
    }
  }

  lemma {:induction false} UnmatchedMonotone(assign: seq<string>, i: nat, j: nat)
    requires i <= j <= |assign|
    ensures Unmatched(assign[..i]) <= Unmatched(assign[..j])
    decreases j
  {
    if i < j {
      assert assign[..j][..j - 1] == assign[..j - 1];
      UnmatchedMonotone(assign, i, j - 1);
    }
  }

  lemma IndexOfDistinct(s: seq<string>, i: nat)
    requires Distinct(s) && i < |s| && s[i] != ""
    ensures IndexOf(s, s[i]) == i
  {
    var j := IndexOf(s, s[i]);
    assert s[j] == s[i];
  }

  /** Updates keep names and numbers in step. */
  lemma UpdateWellFormed(cfg: Config, s: State, dets: seq<Detection>, assign: seq<string>)
    requires WellFormed(cfg, s) && StableMatch(dets, s.tracks, assign)
    ensures WellFormed(cfg, Mid(cfg, s, dets, assign)) && WellFormed(cfg, After(cfg, s, dets, assign))
  {
    var mid := Mid(cfg, s, dets, assign);
    var o := Owners(cfg.stream, s.nextID, assign);
    forall id | id in mid.tracks ensures mid.tracks[id].id == id && Minted(cfg.stream, mid.nextID, id) {
      if id in s.tracks {
        var k :| 1 <= k <= s.nextID && id == TrackId(cfg.stream, k);
        assert 1 <= k <= mid.nextID;
      } else {
        var i := IndexOf(o, id);
        OwnerAt(cfg, s.nextID, assign, i);
        assert 1 <= s.nextID + Unmatched(assign[..i + 1]) <= mid.nextID;
      }
    }
  }

  // ---- recognition ----

  /** What the environment does for one report: the clock read by the pacing test, whether the crop is
      non-empty, the embedding if extraction succeeds, the clock read on success, and whether the
      snapshot upload succeeds. */
  datatype Attempt = Attempt(checkAt: int, cropOk: bool, embedding: Option<seq<real>>, stampAt: int, putOk: bool)

  /** One published detection event, with the clock readings behind it. */
  datatype Event = Event(id: string, box: Box, confidence: real, embedding: Option<seq<real>>,
                         checkAt: int, stampAt: int, isNew: bool, snapshot: bool)

  function EventOf(id: string, t: TrackState, isNew: bool, a: Attempt): Event {
    Event(id, t.box, t.confidence, a.embedding, a.checkAt, a.stampAt, isNew, isNew && a.putOk)
  }

  predicate ShouldRecognize(cfg: Config, t: TrackState, interval: int, now: int) {
    t.hits >= cfg.minHits && (t.embedding.None? || now - t.lastRecognized >= interval)
  }

  predicate Recognized(cfg: Config, t: TrackState, isNew: bool, interval: int, a: Attempt) {
    (ShouldRecognize(cfg, t, interval, a.checkAt) || isNew) && a.cropOk && a.embedding.Some?
  }

  function Stamped(t: TrackState, a: Attempt): TrackState {
    t.(embedding := a.embedding, lastRecognized := a.stampAt)
  }

  /** Tracks and events after the reports have been worked through in order. */
  function Recognition(cfg: Config, interval: int, tracks: map<string, TrackState>,
                       reports: seq<Report>, attempts: seq<Attempt>): (r: (map<string, TrackState>, seq<Event>))
    requires |attempts| == |reports|
    requires forall k :: 0 <= k < |reports| ==> reports[k].id in tracks
    ensures r.0.Keys == tracks.Keys
  {
    if reports == [] then (tracks, [])
    else
      var n := |reports| - 1;
      var (m, events) := Recognition(cfg, interval, tracks, reports[..n], attempts[..n]);
      var t, a, isNew := m[reports[n].id], attempts[n], reports[n].isNew;
      if Recognized(cfg, t, isNew, interval, a) then
        (m[reports[n].id := Stamped(t, a)],
         events + [EventOf(reports[n].id, t, isNew, a)])
      else (m, events)
  }
}
