/**
Greedy non-maximum suppression (internal/vision/detect.go) and the choice of the best face in
`EmbedImage` (internal/vision/pipeline.go).

`sort.Slice` is not stable, so `Nms` is proved for whatever order the sort leaves behind: any
permutation of the input with descending confidence.
*/
module Nms {
  import opened Geometry

  datatype Detection = Detection(box: Box, confidence: real, landmarks: seq<(real, real)>)

  predicate Descending(s: seq<Detection>) {
    forall i, j :: 0 <= i < j < |s| ==> s[i].confidence >= s[j].confidence
  }

  ghost predicate SortedPermutation(sorted: seq<Detection>, s: seq<Detection>) {
    Descending(sorted) && multiset(sorted) == multiset(s)
  }

  predicate Clashes(e: Detection, d: Detection, threshold: real) {
    Iou(e.box, d.box) > threshold
  }

  /** d overlaps none of `kept` by more than the threshold. */
  predicate NoClash(kept: seq<Detection>, d: Detection, threshold: real) {
    forall i :: 0 <= i < |kept| ==> !Clashes(kept[i], d, threshold)
  }

  /** The elements of s that e does not suppress, in order. */
  function Clear(e: Detection, s: seq<Detection>, threshold: real): (r: seq<Detection>)
    ensures |r| <= |s|
  {
    if s == [] then []
    else
      var r := Clear(e, s[..|s| - 1], threshold);
      if Clashes(e, s[|s| - 1], threshold) then r else r + [s[|s| - 1]]
  }

  /** The reference: keep the first, drop what it suppresses, repeat on the rest. */
  function Greedy(s: seq<Detection>, threshold: real): seq<Detection>
    decreases |s|
  {
    if s == [] then [] else [s[0]] + Greedy(Clear(s[0], s[1..], threshold), threshold)
  }

  /** One more, less confident, detection survives exactly when it clashes with no survivor. */
  lemma {:induction false} GreedySnoc(s: seq<Detection>, d: Detection, threshold: real)
    ensures Greedy(s + [d], threshold)
         == Greedy(s, threshold) + (if NoClash(Greedy(s, threshold), d, threshold) then [d] else [])
    decreases |s|
  {
    if s == [] {
      assert Clear(d, [], threshold) == [];
    } else {
      var rest := Clear(s[0], s[1..], threshold);
      ClearSnoc(s[0], s[1..], d, threshold);
      assert (s + [d])[1..] == s[1..] + [d];
      var g := Greedy(rest, threshold);
      assert Greedy(s, threshold) == [s[0]] + g;
      assert Greedy(s + [d], threshold) == [s[0]] + Greedy(Clear(s[0], s[1..] + [d], threshold), threshold);
      NoClashCons(s[0], g, d, threshold);
      if !Clashes(s[0], d, threshold) {
        GreedySnoc(rest, d, threshold);
      }
      hide *;
      Regroup(s[0], g, if NoClash(g, d, threshold) then [d] else []);
      Regroup(s[0], g, []);
    }
  }

  lemma Regroup(e: Detection, g: seq<Detection>, c: seq<Detection>)
    ensures ([e] + g) + c == [e] + (g + c) && g + [] == g
  {
  }

  lemma ClearSnoc(e: Detection, s: seq<Detection>, d: Detection, threshold: real)
    ensures Clear(e, s + [d], threshold) == Clear(e, s, threshold) + if Clashes(e, d, threshold) then [] else [d]
  {
    assert (s + [d])[..|s|] == s;
  }

  lemma NoClashCons(e: Detection, kept: seq<Detection>, d: Detection, threshold: real)
    ensures NoClash([e] + kept, d, threshold) <==> !Clashes(e, d, threshold) && NoClash(kept, d, threshold)
  {
    assert ([e] + kept)[0] == e;
    assert forall i :: 0 <= i < |kept| ==> ([e] + kept)[i + 1] == kept[i];
  }

  lemma NoClashSnoc(kept: seq<Detection>, e: Detection, d: Detection, threshold: real)
    ensures NoClash(kept + [e], d, threshold) <==> NoClash(kept, d, threshold) && !Clashes(e, d, threshold)
  {
    assert (kept + [e])[|kept|] == e;
    assert forall i :: 0 <= i < |kept| ==> (kept + [e])[i] == kept[i];
  }

  /** The elements whose flag is set, in order. */
  function Flagged(s: seq<Detection>, keep: seq<bool>): seq<Detection>
    requires |keep| == |s|
  {
    if s == [] then []
    else
      var n := |s| - 1;
      Flagged(s[..n], keep[..n]) + if keep[n] then [s[n]] else []
  }

  /** Suppression as flags: a detection is kept exactly if it overlaps no kept one before it by more than
      the threshold. */
  ghost predicate KeepFlags(s: seq<Detection>, keep: seq<bool>, threshold: real) {
    && |keep| == |s|
    && forall k :: 0 <= k < |s| ==>
         (keep[k] <==> forall j :: 0 <= j < k && keep[j] ==> Iou(s[j].box, s[k].box) <= threshold)
  }

  lemma {:induction false} FlaggedElements(s: seq<Detection>, keep: seq<bool>, d: Detection, threshold: real)
    requires |keep| == |s|
    ensures NoClash(Flagged(s, keep), d, threshold)
      <==> forall j :: 0 <= j < |s| && keep[j] ==> Iou(s[j].box, d.box) <= threshold
  {
    hide Iou;
    if s != [] {
      var n := |s| - 1;
      FlaggedElements(s[..n], keep[..n], d, threshold);
      NoClashSnoc(Flagged(s[..n], keep[..n]), s[n], d, threshold);
      assert forall j :: 0 <= j < n ==> s[j] == s[..n][j] && keep[j] == keep[..n][j];
      hide NoClash;
    }
  }

  /** The selection is the one such flags describe. */
  lemma {:induction false} GreedyIsFlagged(s: seq<Detection>, threshold: real) returns (keep: seq<bool>)
    ensures KeepFlags(s, keep, threshold) && Greedy(s, threshold) == Flagged(s, keep)
    decreases |s|
  {
    hide Iou;
    keep := [];
    if s != [] {
      var n := |s| - 1;
      var p, d := s[..n], s[n];
      assert s == p + [d];
      keep := GreedyIsFlagged(p, threshold);
      GreedySnoc(p, d, threshold);
      FlaggedElements(p, keep, d, threshold);
      hide NoClash, Greedy;
      var last := NoClash(Greedy(p, threshold), d, threshold);
      FlagsSnoc(p, keep, d, last, threshold);
      keep := keep + [last];
      assert keep[..n] == keep[..|keep| - 1];
    }
  }

  lemma FlagsSnoc(s: seq<Detection>, keep: seq<bool>, d: Detection, last: bool, threshold: real)
    requires KeepFlags(s, keep, threshold)
    requires last <==> forall j :: 0 <= j < |s| && keep[j] ==> Iou(s[j].box, d.box) <= threshold
    ensures KeepFlags(s + [d], keep + [last], threshold)
    ensures Flagged(s + [d], keep + [last]) == Flagged(s, keep) + if last then [d] else []
  {
    hide Iou;
    var t, k := s + [d], keep + [last];
    assert t[..|s|] == s && k[..|s|] == keep;
    assert forall j :: 0 <= j < |s| ==> t[j] == s[j] && k[j] == keep[j];
  }

  /** What suppression promises, in terms of the overlap ratio: survivors pairwise overlap by at most the
      threshold, what is gone overlaps a survivor of no lower confidence by more, and flags decided from
      the front describe the selection. */
  ghost predicate Suppressed(s: seq<Detection>, g: seq<Detection>, threshold: real) {
    && (forall i, j :: 0 <= i < j < |g| ==> Iou(g[i].box, g[j].box) <= threshold)
    && (forall d :: d in s && d !in g ==>
          exists e :: e in g && e.confidence >= d.confidence && Iou(e.box, d.box) > threshold)
    && exists keep :: KeepFlags(s, keep, threshold) && g == Flagged(s, keep)
  }

  lemma SurvivorsByIou(s: seq<Detection>, threshold: real)
    requires Descending(s)
    ensures Suppressed(s, Greedy(s, threshold), threshold)
  {
    SurvivorsSeparated(s, threshold);
    Covered(s, threshold);
    var keep := GreedyIsFlagged(s, threshold);
    hide Iou, Greedy, KeepFlags;
    var g := Greedy(s, threshold);
    forall i, j | 0 <= i < j < |g| ensures Iou(g[i].box, g[j].box) <= threshold {
      assert !Clashes(g[i], g[j], threshold);
    }
    forall d | d in s && d !in g
      ensures exists e :: e in g && e.confidence >= d.confidence && Iou(e.box, d.box) > threshold
    {
      var e :| e in g && e.confidence >= d.confidence && Clashes(e, d, threshold);
      assert Iou(e.box, d.box) > threshold;
    }
  }

  /** The inner loop: the kept detection i switches off every later one it clashes with. */
  method SuppressAgainst(a: array<Detection>, i: nat, keep: array<bool>, threshold: real)
    requires i < a.Length == keep.Length
    modifies keep
    ensures forall k :: 0 <= k <= i ==> keep[k] == old(keep[k])
    ensures forall k :: i < k < keep.Length ==> (keep[k] <==> old(keep[k]) && !Clashes(a[i], a[k], threshold))
    ensures forall k :: i < k < keep.Length ==> (keep[k] <==> old(keep[k]) && Iou(a[i].box, a[k].box) <= threshold)
  {
    hide Iou;
    for j := i + 1 to a.Length
      invariant forall k :: 0 <= k <= i || j <= k < keep.Length ==> keep[k] == old(keep[k])
      invariant forall k :: i < k < j ==> (keep[k] <==> old(keep[k]) && !Clashes(a[i], a[k], threshold))
    {
      if !keep[j] {
        continue;
      }
      if Iou(a[i].box, a[j].box) > threshold {
        keep[j] := false;
      }
    }
  }

  /** The in-place sort, the pair of suppression loops and the final sweep. */
  method Nms(a: array<Detection>, threshold: real, sorted: seq<Detection>) returns (result: seq<Detection>)
    requires SortedPermutation(sorted, a[..])
    modifies a
    ensures a[..] == sorted
    ensures result == Greedy(sorted, threshold)
    ensures Suppressed(sorted, result, threshold)
  {
    hide Iou, Clear, Suppressed, Descending;
    assert Suppressed(sorted, Greedy(sorted, threshold), threshold) by { SurvivorsByIou(sorted, threshold); }
    assert a.Length == |multiset(a[..])| == |multiset(sorted)|;
    hide SortedPermutation;
    if a.Length == 0 {
      return [];
    }
    forall i | 0 <= i < a.Length { a[i] := sorted[i]; }
    var n := a.Length;
    var keep := new bool[n](_ => true);
    assert sorted[..0] == [];
    for i := 0 to n
      invariant a[..] == sorted
      invariant forall k :: 0 <= k < i ==> (keep[k] <==> NoClash(Greedy(sorted[..k], threshold), sorted[k], threshold))
      invariant forall k :: i <= k < n ==> (keep[k] <==> NoClash(Greedy(sorted[..i], threshold), sorted[k], threshold))
    {
      ghost var before := Greedy(sorted[..i], threshold);
      ghost var after := Greedy(sorted[..i + 1], threshold);
      assert after == before + (if keep[i] then [sorted[i]] else []) by {
        assert sorted[..i + 1] == sorted[..i] + [sorted[i]];
        GreedySnoc(sorted[..i], sorted[i], threshold);
      }
      if !keep[i] {
        assert after == before;
        continue;
      }
      SuppressAgainst(a, i, keep, threshold);
      forall k | i < k < n ensures keep[k] <==> NoClash(after, sorted[k], threshold) {
        NoClashSnoc(before, sorted[i], sorted[k], threshold);
      }
    }
    result := [];
    for i := 0 to n
      invariant a[..] == sorted
      invariant result == Greedy(sorted[..i], threshold)
      invariant forall k :: 0 <= k < n ==>
        (keep[k] <==> NoClash(Greedy(sorted[..k], threshold), sorted[k], threshold))
    {
      assert sorted[..i + 1] == sorted[..i] + [sorted[i]];
      GreedySnoc(sorted[..i], sorted[i], threshold);
      if keep[i] {
        result := result + [a[i]];
      }
    }
    assert sorted[..n] == sorted;
  }

  // ---- what survives ----

  predicate Separated(g: seq<Detection>, threshold: real) {
    forall i, j :: 0 <= i < j < |g| ==> !Clashes(g[i], g[j], threshold)
  }

  /** No survivor is suppressed by an earlier one. */
  lemma {:induction false} SurvivorsSeparated(s: seq<Detection>, threshold: real)
    ensures Separated(Greedy(s, threshold), threshold)
    decreases |s|
  {
    hide Iou;
    if s != [] {
      var p, d := s[..|s| - 1], s[|s| - 1];
      assert s == p + [d];
      SurvivorsSeparated(p, threshold);
      GreedySnoc(p, d, threshold);
    }
  }

  /** Nothing is invented, and the most confident detection stays in front. */
  lemma {:induction false} SurvivorsAmong(s: seq<Detection>, threshold: real)
    ensures multiset(Greedy(s, threshold)) <= multiset(s)
    ensures s != [] ==> Greedy(s, threshold) != [] && Greedy(s, threshold)[0] == s[0]
    ensures forall d :: d in Greedy(s, threshold) ==> d in s
    decreases |s|
  {
    hide Iou;
    if s != [] {
      var p, d := s[..|s| - 1], s[|s| - 1];
      assert s == p + [d];
      SurvivorsAmong(p, threshold);
      GreedySnoc(p, d, threshold);
    }
  }

  lemma {:induction false} SurvivorsDescending(s: seq<Detection>, threshold: real)
    requires Descending(s)
    ensures Descending(Greedy(s, threshold))
    decreases |s|
  {
    hide Iou;
    if s != [] {
      var p, d := s[..|s| - 1], s[|s| - 1];
      assert s == p + [d];
      SurvivorsDescending(p, threshold);
      SurvivorsAmong(p, threshold);
      forall e | e in Greedy(p, threshold) ensures e.confidence >= d.confidence {
        var i :| 0 <= i < |p| && p[i] == e;
        assert s[i] == e;
      }
      GreedySnoc(p, d, threshold);
    }
  }

  /** Every input survives or clashes with a survivor of no lower confidence. */
  lemma {:induction false} Covered(s: seq<Detection>, threshold: real)
    requires Descending(s)
    ensures forall d :: d in s ==> d in Greedy(s, threshold) || exists e ::
      e in Greedy(s, threshold) && e.confidence >= d.confidence && Clashes(e, d, threshold)
    decreases |s|
  {
    hide Iou, Greedy, Clashes;
    if s != [] {
      var p, d := s[..|s| - 1], s[|s| - 1];
      assert s == p + [d];
      Covered(p, threshold);
      GreedySnoc(p, d, threshold);
      var g := Greedy(p, threshold);
      assert forall e :: e in g ==> e in Greedy(s, threshold);
      if !NoClash(g, d, threshold) {
        var i :| 0 <= i < |g| && Clashes(g[i], d, threshold);
        SurvivorsAmong(p, threshold);
        assert g[i] in p && g[i] in Greedy(s, threshold);
      }
      forall x | x in s && x !in Greedy(s, threshold)
        ensures exists e :: e in Greedy(s, threshold) && e.confidence >= x.confidence && Clashes(e, x, threshold)
      {
        if x in p {
          var e :| e in g && e.confidence >= x.confidence && Clashes(e, x, threshold);
          assert e in Greedy(s, threshold);
        } else {
          assert x == d;
        }
      }
    }
  }

  /** Equal confidence means the same detection: no ties for the unstable sort to break. */
  ghost predicate TieFree(s: seq<Detection>) {
    forall d, e :: d in s && e in s && d.confidence == e.confidence ==> d == e
  }

  /** Without ties there is one sorted order, hence one result of suppression. */
  lemma {:induction false} SortedOrderIsUnique(s: seq<Detection>, t: seq<Detection>)
    requires Descending(s) && Descending(t) && multiset(s) == multiset(t) && TieFree(s)
    ensures s == t
    decreases |s|
  {
    assert |s| == |multiset(s)| == |multiset(t)| == |t|;
    if s != [] {
      SameTop(s, t);
      SameRest(s, t);
      SortedOrderIsUnique(s[1..], t[1..]);
    }
  }

  lemma SameRest(s: seq<Detection>, t: seq<Detection>)
    requires s != [] && t != [] && s[0] == t[0] && multiset(s) == multiset(t)
    ensures multiset(s[1..]) == multiset(t[1..])
  {
    assert s == [s[0]] + s[1..] && t == [t[0]] + t[1..];
    assert multiset(s[1..]) == multiset(s) - multiset{s[0]};
  }

  lemma SameTop(s: seq<Detection>, t: seq<Detection>)
    requires s != [] && t != []
    requires Descending(s) && Descending(t) && multiset(s) == multiset(t) && TieFree(s)
    ensures s[0] == t[0]
  {
    assert s[0] in multiset(t) && t[0] in multiset(s);
    var i :| 0 <= i < |t| && t[i] == s[0];
    var j :| 0 <= j < |s| && s[j] == t[0];
    assert s[0].confidence >= s[j].confidence && t[0].confidence >= t[i].confidence;
  }

  // ---- ties ----

  /** A survivor of strictly higher confidence suppresses d. */
  ghost predicate Outranked(s: seq<Detection>, d: Detection, threshold: real) {
    exists g :: g in Greedy(s, threshold) && g.confidence > d.confidence && Clashes(g, d, threshold)
  }

  /** Of any two different detections of equal confidence, one at least is out of the running anyway. */
  ghost predicate TiesSettled(s: seq<Detection>, threshold: real) {
    forall d, e :: d in s && e in s && d != e && d.confidence == e.confidence
      ==> Outranked(s, d, threshold) || Outranked(s, e, threshold)
  }

  lemma {:induction false} GreedyPrefix(p: seq<Detection>, q: seq<Detection>, threshold: real)
    ensures Greedy(p, threshold) <= Greedy(p + q, threshold)
    decreases |q|
  {
    hide Greedy, NoClash;
    if q == [] {
      assert p + q == p;
    } else {
      var r, x := q[..|q| - 1], q[|q| - 1];
      GreedyPrefix(p, r, threshold);
      assert p + q == (p + r) + [x];
      GreedySnoc(p + r, x, threshold);
    }
  }

  /** A survivor more confident than all of q is there before q is looked at. */
  lemma {:induction false} EarlySurvivor(p: seq<Detection>, q: seq<Detection>, g: Detection, threshold: real)
    requires g in Greedy(p + q, threshold) && forall x :: x in q ==> x.confidence < g.confidence
    ensures g in Greedy(p, threshold)
    decreases |q|
  {
    hide Greedy, NoClash;
    if q == [] {
      assert p + q == p;
    } else {
      var r, x := q[..|q| - 1], q[|q| - 1];
      assert x in q && p + q == (p + r) + [x];
      GreedySnoc(p + r, x, threshold);
      EarlySurvivor(p, r, g, threshold);
    }
  }

  /** A detection that clashes with an earlier survivor might as well not be there. */
  lemma {:induction false} DropSuppressed(p: seq<Detection>, d: Detection, q: seq<Detection>, threshold: real)
    requires !NoClash(Greedy(p, threshold), d, threshold)
    ensures Greedy(p + [d] + q, threshold) == Greedy(p + q, threshold)
    decreases |q|
  {
    hide Greedy, NoClash;
    if q == [] {
      assert p + [d] + q == p + [d] && p + q == p;
      GreedySnoc(p, d, threshold);
    } else {
      var r, x := q[..|q| - 1], q[|q| - 1];
      assert p + [d] + q == (p + [d] + r) + [x] && p + q == (p + r) + [x];
      DropSuppressed(p, d, r, threshold);
      GreedySnoc(p + [d] + r, x, threshold);
      GreedySnoc(p + r, x, threshold);
    }
  }

  lemma Without(s: seq<Detection>, i: nat) returns (r: seq<Detection>)
    requires Descending(s) && i < |s|
    ensures r == s[..i] + s[i + 1..] && s == s[..i] + [s[i]] + s[i + 1..]
    ensures Descending(r) && multiset(r) == multiset(s) - multiset{s[i]}
    ensures forall x :: x in s[i + 1..] ==> x.confidence <= s[i].confidence
  {
    r := s[..i] + s[i + 1..];
    assert s == s[..i] + [s[i]] + s[i + 1..];
  }

  /** Taking out an outranked detection changes nothing; its better may be known to survive with it or
      without it. */
  lemma OutrankedDrops(s: seq<Detection>, i: nat, g: Detection, threshold: real) returns (r: seq<Detection>)
    requires Descending(s) && i < |s| && g.confidence > s[i].confidence && Clashes(g, s[i], threshold)
    requires g in Greedy(s, threshold) || g in Greedy(s[..i] + s[i + 1..], threshold)
    ensures Descending(r) && multiset(r) == multiset(s) - multiset{s[i]}
    ensures r == s[..i] + s[i + 1..] && Greedy(r, threshold) == Greedy(s, threshold)
  {
    hide Greedy, Clashes;
    r := Without(s, i);
    var p, d, q := s[..i], s[i], s[i + 1..];
    if g in Greedy(s, threshold) {
      assert s == p + ([d] + q);
      EarlySurvivor(p, [d] + q, g, threshold);
    } else {
      EarlySurvivor(p, q, g, threshold);
    }
    assert !NoClash(Greedy(p, threshold), d, threshold);
    hide NoClash;
    DropSuppressed(p, d, q, threshold);
  }

  lemma SameElements(s: seq<Detection>, t: seq<Detection>)
    requires multiset(s) == multiset(t)
    ensures forall d :: d in s <==> d in t
  {
    assert forall d :: d in s <==> d in multiset(s);
    assert forall d :: d in t <==> d in multiset(t);
  }

  /** Settled ties leave the order of the sort without influence: outranked detections can be taken out
      of both orders, and what is left has no ties. */
  lemma {:induction false} SettledUnique(s: seq<Detection>, t: seq<Detection>, threshold: real)
    requires Descending(s) && Descending(t) && multiset(s) == multiset(t) && TiesSettled(s, threshold)
    ensures Greedy(s, threshold) == Greedy(t, threshold)
    decreases |s|
  {
    if x :| x in s && Outranked(s, x, threshold) {
      SameElements(s, t);
      var g :| g in Greedy(s, threshold) && g.confidence > x.confidence && Clashes(g, x, threshold);
      hide *;
      var i := Place(s, x);
      var j := Place(t, x);
      var s' := OutrankedDrops(s, i, g, threshold);
      StillSettled(s, s', x, threshold);
      var t' := Without(t, j);
      SmallerMultiset(s, s', x);
      SettledUnique(s', t', threshold);
      t' := OutrankedDrops(t, j, g, threshold);
    } else {
      SortedOrderIsUnique(s, t);
    }
  }

  lemma Place(s: seq<Detection>, x: Detection) returns (i: nat)
    requires x in s
    ensures i < |s| && s[i] == x
  {
    i :| 0 <= i < |s| && s[i] == x;
  }

  lemma SmallerMultiset(s: seq<Detection>, r: seq<Detection>, x: Detection)
    requires x in s && multiset(r) == multiset(s) - multiset{x}
    ensures |r| < |s|
  {
    assert |multiset(r)| == |multiset(s)| - 1;
  }

  lemma StillSettled(s: seq<Detection>, r: seq<Detection>, x: Detection, threshold: real)
    requires TiesSettled(s, threshold) && Greedy(r, threshold) == Greedy(s, threshold)
    requires multiset(r) == multiset(s) - multiset{x}
    ensures TiesSettled(r, threshold)
  {
    hide Greedy, Clashes;
    forall d | d in r ensures d in s {
      assert d in multiset(r) && d in multiset(s);
    }
  }

  /** d moved to the front of the detections of its confidence. */
  lemma Promote(s: seq<Detection>, k: nat, d: Detection) returns (t: seq<Detection>)
    requires Descending(s) && d in s && k <= |s|
    requires forall j :: 0 <= j < |s| ==> (j < k <==> s[j].confidence > d.confidence)
    ensures Descending(t) && multiset(t) == multiset(s) && s[..k] + [d] <= t
  {
    var i := Place(s, d);
    var r := Without(s, i);
    assert r[..k] == s[..k];
    t := Insert(r, k, d);
  }

  lemma Insert(r: seq<Detection>, k: nat, d: Detection) returns (t: seq<Detection>)
    requires Descending(r) && k <= |r|
    requires forall j :: 0 <= j < k ==> r[j].confidence >= d.confidence
    requires forall j :: k <= j < |r| ==> r[j].confidence <= d.confidence
    ensures Descending(t) && multiset(t) == multiset(r) + multiset{d} && r[..k] + [d] <= t
  {
    t := r[..k] + [d] + r[k..];
    assert r == r[..k] + r[k..];
  }

  /** A detection no better survivor suppresses survives once it is promoted. */
  lemma PromotedSurvives(s: seq<Detection>, k: nat, d: Detection, t: seq<Detection>, threshold: real)
    requires k <= |s| && (forall j :: 0 <= j < k ==> s[j].confidence > d.confidence)
    requires s[..k] + [d] <= t && !Outranked(s, d, threshold)
    ensures Greedy(s[..k], threshold) + [d] <= Greedy(t, threshold)
  {
    hide Greedy, Clashes;
    var p := s[..k];
    assert s == p + s[k..] && t == (p + [d]) + t[k + 1..];
    GreedyPrefix(p, s[k..], threshold);
    SurvivorsAmong(p, threshold);
    var g := Greedy(p, threshold);
    forall i | 0 <= i < |g| ensures !Clashes(g[i], d, threshold) {
      assert g[i] in g && g[i] in p && g[i] == Greedy(s, threshold)[i];
    }
    GreedySnoc(p, d, threshold);
    GreedyPrefix(p + [d], t[k + 1..], threshold);
  }

  /** An unsettled tie lets the sort decide: promoting one or the other gives different survivors. */
  lemma TieDecides(s: seq<Detection>, d: Detection, e: Detection, threshold: real) returns (t: seq<Detection>, u: seq<Detection>)
    requires Descending(s) && d in s && e in s && d != e && d.confidence == e.confidence
    requires !Outranked(s, d, threshold) && !Outranked(s, e, threshold)
    ensures SortedPermutation(t, s) && SortedPermutation(u, s) && Greedy(t, threshold) != Greedy(u, threshold)
  {
    hide Greedy, Outranked;
    var k := Above(s, d.confidence);
    t := Promote(s, k, d);
    u := Promote(s, k, e);
    PromotedSurvives(s, k, d, t, threshold);
    PromotedSurvives(s, k, e, u, threshold);
    var n := |Greedy(s[..k], threshold)|;
    assert Greedy(t, threshold)[n] == d && Greedy(u, threshold)[n] == e;
  }

  lemma {:induction false} Above(s: seq<Detection>, c: real) returns (k: nat)
    requires Descending(s)
    ensures k <= |s| && forall j :: 0 <= j < |s| ==> (j < k <==> s[j].confidence > c)
  {
    k := 0;
    if s != [] && s[0].confidence > c {
      k := Above(s[1..], c);
      k := k + 1;
      assert forall j :: 1 <= j < |s| ==> s[j] == s[1..][j - 1];
    }
  }

  /** Whatever order the unstable sort leaves, the survivors are the same, exactly if every tie between
      different detections is settled by a survivor above it.  Any one sorted order can tell. */
  lemma SurvivorsAreUnique(raw: seq<Detection>, s: seq<Detection>, threshold: real)
    requires SortedPermutation(s, raw)
    ensures TiesSettled(s, threshold) <==>
      forall t :: SortedPermutation(t, raw) ==> Greedy(t, threshold) == Greedy(s, threshold)
  {
    hide Greedy, Outranked;
    if TiesSettled(s, threshold) {
      forall t | SortedPermutation(t, raw) ensures Greedy(t, threshold) == Greedy(s, threshold) {
        SettledUnique(s, t, threshold);
      }
    } else {
      var d, e :| d in s && e in s && d != e && d.confidence == e.confidence
        && !Outranked(s, d, threshold) && !Outranked(s, e, threshold);
      var t, u := TieDecides(s, d, e, threshold);
      assert SortedPermutation(t, raw) && SortedPermutation(u, raw);
    }
  }

  const LANDMARKS := [(5.0, 4.0), (7.0, 4.0), (6.0, 5.0), (5.0, 7.0), (7.0, 7.0)]

  /** Two faces of equal confidence that overlap by more than the threshold: either may survive. */
  lemma TieDecidesSurvivor() returns (raw: seq<Detection>, s: seq<Detection>, t: seq<Detection>)
    ensures SortedPermutation(s, raw) && SortedPermutation(t, raw)
    ensures Greedy(s, 0.4) != Greedy(t, 0.4)
  {
    var d := Detection(Box(0.0, 0.0, 10.0, 10.0), 0.9, LANDMARKS);
    var e := Detection(Box(1.0, 0.0, 11.0, 10.0), 0.9, LANDMARKS);
    raw := [d, e];
    SurvivorsAmong(raw, 0.4);
    s, t := TieDecides(raw, d, e, 0.4);
  }

  // ---- a second pass ----

  lemma TwoOccurrences(s: seq<Detection>, d: Detection)
    requires multiset(s)[d] >= 2
    ensures exists i, j :: 0 <= i < j < |s| && s[i] == s[j] == d
  {
    assert s == [s[0]] + s[1..];
    if s[0] == d {
      assert d in multiset(s[1..]);
      var j :| 0 <= j < |s[1..]| && s[1..][j] == d;
      assert s[0] == s[j + 1] == d;
    } else {
      TwoOccurrences(s[1..], d);
      var i, j :| 0 <= i < j < |s[1..]| && s[1..][i] == s[1..][j] == d;
      assert s[i + 1] == s[j + 1] == d;
    }
  }

  /** Separation does not depend on the order of the list. */
  lemma SeparatedPermutation(g: seq<Detection>, h: seq<Detection>, threshold: real)
    requires Separated(g, threshold) && multiset(g) == multiset(h)
    ensures Separated(h, threshold)
  {
    hide Iou;
    forall i, j | 0 <= i < j < |h| ensures !Clashes(h[i], h[j], threshold) {
      var a, b := h[i], h[j];
      if a == b {
        assert h == h[..j] + [h[j]] + h[j + 1..];
        assert h[..j][i] == a;
        assert multiset(h[..j])[a] >= 1;
        assert multiset(h)[a] >= 2;
        TwoOccurrences(g, a);
      } else {
        assert a in multiset(h) && b in multiset(h);
        var p :| 0 <= p < |g| && g[p] == a;
        var q :| 0 <= q < |g| && g[q] == b;
        IouSymmetric(a.box, b.box);
      }
    }
  }

  lemma {:induction false} SeparatedIsGreedy(g: seq<Detection>, threshold: real)
    requires Separated(g, threshold)
    ensures Greedy(g, threshold) == g
    decreases |g|
  {
    hide Iou;
    if g != [] {
      var p, d := g[..|g| - 1], g[|g| - 1];
      assert g == p + [d];
      SeparatedIsGreedy(p, threshold);
      GreedySnoc(p, d, threshold);
    }
  }

  /** Running suppression on its own result removes nothing, whatever the second sort does with ties. */
  lemma SecondPassRemovesNothing(sorted: seq<Detection>, again: seq<Detection>, threshold: real)
    requires SortedPermutation(again, Greedy(sorted, threshold))
    ensures Greedy(again, threshold) == again
  {
    SurvivorsSeparated(sorted, threshold);
    SeparatedPermutation(Greedy(sorted, threshold), again, threshold);
    SeparatedIsGreedy(again, threshold);
  }

  // ---- strong overlaps ----

  /** Among the survivors of suppression at 0.4, at most one overlaps a given box by more than 0.7. */
  lemma StrongSurvivorIsUnique(sorted: seq<Detection>, t: Box, i: nat, j: nat)
    requires Proper(t)
    requires var g := Greedy(sorted, 0.4); i < |g| && j < |g| && Proper(g[i].box) && Proper(g[j].box)
    requires var g := Greedy(sorted, 0.4); Iou(g[i].box, t) > 0.7 && Iou(g[j].box, t) > 0.7
    ensures i == j
  {
    var g := Greedy(sorted, 0.4);
    SurvivorsSeparated(sorted, 0.4);
    hide Iou;
    if i < j {
      StrongOverlapIsUnique(g[i].box, g[j].box, t);
    } else if j < i {
      StrongOverlapIsUnique(g[j].box, g[i].box, t);
    }
  }

  // ---- EmbedImage ----

  /** The selection loop of `EmbedImage`: the first detection of highest confidence. */
  method BestFace(detections: seq<Detection>) returns (best: Detection)
    requires detections != []
    ensures exists i ::
      && 0 <= i < |detections| && detections[i] == best
      && (forall k :: 0 <= k < i ==> detections[k].confidence < best.confidence)
      && (forall k :: 0 <= k < |detections| ==> detections[k].confidence <= best.confidence)
  {
    best := detections[0];
    ghost var at := 0;
    for n := 1 to |detections|
      invariant 0 <= at < n && detections[at] == best
      invariant forall k :: 0 <= k < at ==> detections[k].confidence < best.confidence
      invariant forall k :: at <= k < n ==> detections[k].confidence <= best.confidence
    {
      if detections[n].confidence > best.confidence {
        best := detections[n];
        at := n;
      }
    }
  }

  /** Suppression never loses the best face: a best survivor is a best raw detection. */
  lemma BestSurvivorIsBestRaw(raw: seq<Detection>, sorted: seq<Detection>, threshold: real, best: Detection)
    requires SortedPermutation(sorted, raw)
    requires best in Greedy(sorted, threshold)
    requires forall d :: d in Greedy(sorted, threshold) ==> d.confidence <= best.confidence
    ensures best in raw && forall d :: d in raw ==> d.confidence <= best.confidence
  {
    hide Iou;
    var g := Greedy(sorted, threshold);
    SurvivorsAmong(sorted, threshold);
    assert best in multiset(sorted);
    assert g[0] == sorted[0];
    forall d | d in raw ensures d.confidence <= best.confidence {
      assert d in multiset(raw);
      assert d in sorted;
    }
  }
}
