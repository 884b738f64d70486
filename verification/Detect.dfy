/**
Anchor decoding (internal/vision/detect.go) and the in-place size filter of `ProcessFrame`
(internal/vision/pipeline.go).

The model outputs are arbitrary numbers in tensors of the declared sizes.
*/
module Detect {
  import opened Arithmetic
  import opened Geometry
  import opened Nms

  const STRIDES := [8, 16, 32]
  const ANCHORS_PER_STRIDE := 2

  /** The three output tensors of one stride. */
  datatype Level = Level(scores: seq<real>, bboxes: seq<real>, landmarks: seq<real>)

  datatype Detector = Detector(levels: seq<Level>, threshold: real, inputW: nat, inputH: nat) {
    function Columns(si: nat): nat
      requires si < |STRIDES|
    {
      inputW / STRIDES[si]
    }

    function Anchors(si: nat): nat
      requires si < |STRIDES|
    {
      (inputH / STRIDES[si]) * Columns(si) * ANCHORS_PER_STRIDE
    }

    /** Tensors sized for the input, as allocated with the session. */
    predicate Valid() {
      && |levels| == |STRIDES|
      && inputW > 0 && inputH > 0
      && forall si :: 0 <= si < |STRIDES| ==>
           && |levels[si].scores| == Anchors(si)
           && |levels[si].bboxes| == 4 * Anchors(si)
           && |levels[si].landmarks| == 10 * Anchors(si)
    }
  }

  /** The detection of anchor number idx: its grid cell is read off the number. */
  function Decode(d: Detector, si: nat, idx: nat, origW: nat, origH: nat): Detection
    requires d.Valid() && si < |STRIDES| && idx < d.Anchors(si)
  {
    var cell := idx / ANCHORS_PER_STRIDE;
    DecodeCell(d, si, idx, cell % d.Columns(si), cell / d.Columns(si), origW, origH)
  }

  function ScaleOf(orig: nat, input: nat): real
    requires input > 0
  {
    orig as real / input as real
  }

  /** The edges at the given distances before and after the anchor of a grid column or row, in frame
      coordinates. */
  function EdgeBefore(cell: nat, distance: real, st: real, scale: real): real {
    (cell as real * st - distance * st) * scale
  }

  function EdgeAfter(cell: nat, distance: real, st: real, scale: real): real {
    (cell as real * st + distance * st) * scale
  }

  /** The box of an anchor, not clamped yet. */
  function RawBox(d: Detector, si: nat, idx: nat, cx: nat, cy: nat, origW: nat, origH: nat): Box
    requires d.Valid() && si < |STRIDES| && idx < d.Anchors(si)
  {
    var st, scaleW, scaleH := STRIDES[si] as real, ScaleOf(origW, d.inputW), ScaleOf(origH, d.inputH);
    var b := d.levels[si].bboxes;
    Box(EdgeBefore(cx, b[idx * 4], st, scaleW), EdgeBefore(cy, b[idx * 4 + 1], st, scaleH),
        EdgeAfter(cx, b[idx * 4 + 2], st, scaleW), EdgeAfter(cy, b[idx * 4 + 3], st, scaleH))
  }

  function Clamped(b: Box, origW: nat, origH: nat): Box {
    Box(ClampF(b.x1, 0.0, origW as real), ClampF(b.y1, 0.0, origH as real),
        ClampF(b.x2, 0.0, origW as real), ClampF(b.y2, 0.0, origH as real))
  }

  function DecodeCell(d: Detector, si: nat, idx: nat, cx: nat, cy: nat, origW: nat, origH: nat): Detection
    requires d.Valid() && si < |STRIDES| && idx < d.Anchors(si)
  {
    var st, scaleW, scaleH := STRIDES[si] as real, ScaleOf(origW, d.inputW), ScaleOf(origH, d.inputH);
    var lm := d.levels[si].landmarks;
    Detection(
      Clamped(RawBox(d, si, idx, cx, cy, origW, origH), origW, origH),
      d.levels[si].scores[idx],
      seq(5, li requires 0 <= li < 5 =>
        (EdgeAfter(cx, lm[idx * 10 + li * 2], st, scaleW), EdgeAfter(cy, lm[idx * 10 + li * 2 + 1], st, scaleH))))
  }

  /** The anchors below n of one stride that reach the threshold, decoded, in order. */
  function Picked(d: Detector, si: nat, n: nat, origW: nat, origH: nat): seq<Detection>
    requires d.Valid() && si < |STRIDES| && n <= d.Anchors(si)
  {
    if n == 0 then []
    else if d.levels[si].scores[n - 1] >= d.threshold then
      Picked(d, si, n - 1, origW, origH) + [Decode(d, si, n - 1, origW, origH)]
    else
      Picked(d, si, n - 1, origW, origH)
  }

  /** All strides up to si. */
  function Parsed(d: Detector, si: nat, origW: nat, origH: nat): seq<Detection>
    requires d.Valid() && si <= |STRIDES|
  {
    if si == 0 then [] else Parsed(d, si - 1, origW, origH) + Picked(d, si - 1, d.Anchors(si - 1), origW, origH)
  }

  /** The running anchor number stays below the anchor count and names its own grid cell. */
  lemma Cell(cols: nat, rows: nat, cx: nat, cy: nat, a: nat)
    requires cx < cols && cy < rows && a < ANCHORS_PER_STRIDE
    ensures var idx := (cy * cols + cx) * ANCHORS_PER_STRIDE + a;
      && idx / ANCHORS_PER_STRIDE % cols == cx && idx / ANCHORS_PER_STRIDE / cols == cy
      && idx < rows * cols * ANCHORS_PER_STRIDE
  {
    var cell := cy * cols + cx;
    assert (cell * 2 + a) / 2 == cell;
    DivUnique(cell, cols, cy, cx);
    RowBound(cols, rows, cy);
  }

  /** One turn of the innermost loop: the running number names the cell the loops are in. */
  lemma PickedStep(d: Detector, si: nat, cx: nat, cy: nat, a: nat, origW: nat, origH: nat)
    requires d.Valid() && si < |STRIDES|
    requires cx < d.Columns(si) && cy < d.inputH / STRIDES[si] && a < ANCHORS_PER_STRIDE
    ensures var idx := (cy * d.Columns(si) + cx) * ANCHORS_PER_STRIDE + a;
      && idx + 1 <= d.Anchors(si)
      && Picked(d, si, idx + 1, origW, origH) ==
           Picked(d, si, idx, origW, origH)
         + if d.levels[si].scores[idx] >= d.threshold then [DecodeCell(d, si, idx, cx, cy, origW, origH)] else []
  {
    Cell(d.Columns(si), d.inputH / STRIDES[si], cx, cy, a);
    hide DecodeCell;
  }

  /** The loops over the feature map of one stride, with their running anchor number. */
  method ParseStride(d: Detector, si: nat, origW: nat, origH: nat) returns (found: seq<Detection>)
    requires d.Valid() && si < |STRIDES|
    ensures found == Picked(d, si, d.Anchors(si), origW, origH)
  {
    hide Picked, DecodeCell;
    var fmW, fmH := d.inputW / STRIDES[si], d.inputH / STRIDES[si];
    var idx := 0;
    found := [];
    PickedNone(d, si, origW, origH);
    for cy := 0 to fmH
      invariant idx == cy * fmW * ANCHORS_PER_STRIDE <= d.Anchors(si)
      invariant found == Picked(d, si, idx, origW, origH)
    {
      RowBound(fmW, fmH, cy);
      for cx := 0 to fmW
        invariant idx == (cy * fmW + cx) * ANCHORS_PER_STRIDE <= d.Anchors(si)
        invariant found == Picked(d, si, idx, origW, origH)
      {
        for a := 0 to ANCHORS_PER_STRIDE
          invariant idx == (cy * fmW + cx) * ANCHORS_PER_STRIDE + a <= d.Anchors(si)
          invariant found == Picked(d, si, idx, origW, origH)
        {
          PickedStep(d, si, cx, cy, a, origW, origH);
          if d.levels[si].scores[idx] >= d.threshold {
            found := found + [DecodeCell(d, si, idx, cx, cy, origW, origH)];
          }
          idx := idx + 1;
        }
      }
    }
  }

  method ParseDetections(d: Detector, origW: nat, origH: nat) returns (detections: seq<Detection>)
    requires d.Valid()
    ensures detections == Parsed(d, |STRIDES|, origW, origH)
  {
    detections := [];
    for si := 0 to |STRIDES|
      invariant detections == Parsed(d, si, origW, origH)
    {
      var found := ParseStride(d, si, origW, origH);
      detections := detections + found;
    }
  }

  lemma PickedNone(d: Detector, si: nat, origW: nat, origH: nat)
    requires d.Valid() && si < |STRIDES|
    ensures Picked(d, si, 0, origW, origH) == []
  {
  }

  predicate InFrame(b: Box, origW: nat, origH: nat) {
    && 0.0 <= b.x1 <= origW as real && 0.0 <= b.x2 <= origW as real
    && 0.0 <= b.y1 <= origH as real && 0.0 <= b.y2 <= origH as real
  }

  /** Whatever the model puts out, every detection lies in its frame and reaches the threshold. */
  lemma {:induction false} ParsedInFrame(d: Detector, si: nat, origW: nat, origH: nat)
    requires d.Valid() && si <= |STRIDES|
    ensures forall e :: e in Parsed(d, si, origW, origH) ==> InFrame(e.box, origW, origH) && e.confidence >= d.threshold
  {
    if si > 0 {
      ParsedInFrame(d, si - 1, origW, origH);
      PickedInFrame(d, si - 1, d.Anchors(si - 1), origW, origH);
    }
  }

  lemma {:induction false} PickedInFrame(d: Detector, si: nat, n: nat, origW: nat, origH: nat)
    requires d.Valid() && si < |STRIDES| && n <= d.Anchors(si)
    ensures forall e :: e in Picked(d, si, n, origW, origH) ==> InFrame(e.box, origW, origH) && e.confidence >= d.threshold
  {
    if n > 0 {
      PickedInFrame(d, si, n - 1, origW, origH);
    }
  }

  // ---- where an anchor's box and landmarks lie ----

  function StrideOf(si: nat): real
    requires si < 3
  {
    if si == 0 then 8.0 else if si == 1 then 16.0 else 32.0
  }

  /** Corner of a grid column or row in frame coordinates, and how many pixels of the frame one output of
      the model is worth. */
  function CornerOf(cell: nat, st: real, orig: nat, input: nat): real
    requires input > 0
  {
    cell as real * st * (orig as real / input as real)
  }

  function PixelsPer(st: real, orig: nat, input: nat): real
    requires input > 0
  {
    st * (orig as real / input as real)
  }

  /** Cross-multiplied: cell * stride : input = corner : frame, and stride : input = one output : frame. */
  lemma Proportions(cell: nat, st: real, orig: nat, input: nat)
    requires input > 0
    ensures CornerOf(cell, st, orig, input) * input as real == cell as real * st * orig as real
    ensures PixelsPer(st, orig, input) * input as real == st * orig as real
  {
    var i, scale := input as real, orig as real / input as real;
    assert scale * i == orig as real;
    Regroup(cell as real * st, scale, i);
    Regroup(st, scale, i);
  }

  lemma Regroup(x: real, y: real, z: real)
    ensures x * y * z == x * (y * z)
  {
  }

  /** The model's output x, measured from p. */
  function Beyond(p: real, x: real, unit: real): real { p + x * unit }

  /** One axis of a decoded box, for a corner at p and outputs worth `unit` pixels each: the edges lie at
      the two distances from p wherever that is within the frame, and not on the wrong side of p if the
      distances are not negative. */
  predicate EdgesAround(lo: real, hi: real, p: real, before: real, after: real, unit: real, size: real) {
    && (0.0 <= p - before * unit <= size ==> lo == p - before * unit)
    && (0.0 <= p + after * unit <= size ==> hi == p + after * unit)
    && (before >= 0.0 ==> lo <= p) && (after >= 0.0 ==> p <= hi)
  }

  lemma AxisDecoded(cell: nat, before: real, after: real, st: real, orig: nat, input: nat)
    requires input > 0 && st > 0.0 && cell as real * st <= input as real
    ensures EdgesAround(ClampF(EdgeBefore(cell, before, st, ScaleOf(orig, input)), 0.0, orig as real),
                        ClampF(EdgeAfter(cell, after, st, ScaleOf(orig, input)), 0.0, orig as real),
                        CornerOf(cell, st, orig, input), before, after, PixelsPer(st, orig, input), orig as real)
  {
    hide *;
    EdgeIs(cell, before, st, orig, input);
    EdgeIs(cell, after, st, orig, input);
    CornerInside(cell, st, orig, input);
    ClampedAtEdges(EdgeBefore(cell, before, st, ScaleOf(orig, input)), EdgeAfter(cell, after, st, ScaleOf(orig, input)),
                   CornerOf(cell, st, orig, input), before, after, PixelsPer(st, orig, input), orig as real);
  }

  lemma EdgeIs(cell: nat, distance: real, st: real, orig: nat, input: nat)
    requires input > 0
    ensures EdgeBefore(cell, distance, st, ScaleOf(orig, input))
         == Beyond(CornerOf(cell, st, orig, input), -distance, PixelsPer(st, orig, input))
    ensures EdgeAfter(cell, distance, st, ScaleOf(orig, input))
         == Beyond(CornerOf(cell, st, orig, input), distance, PixelsPer(st, orig, input))
  {
    EdgeTerms(cell as real, distance, st, orig as real / input as real);
  }

  lemma CornerInside(cell: nat, st: real, orig: nat, input: nat)
    requires input > 0 && st > 0.0 && cell as real * st <= input as real
    ensures 0.0 <= CornerOf(cell, st, orig, input) <= orig as real && PixelsPer(st, orig, input) >= 0.0
  {
    var scale := orig as real / input as real;
    NonNegativeProduct(cell as real, st);
    CornerInFrame(cell as real * st, orig as real, input as real, scale);
    NonNegativeProduct(st, scale);
  }

  lemma ClampedAtEdges(l: real, r: real, p: real, before: real, after: real, unit: real, size: real)
    requires 0.0 <= p <= size && unit >= 0.0 && l == Beyond(p, -before, unit) && r == Beyond(p, after, unit)
    ensures EdgesAround(ClampF(l, 0.0, size), ClampF(r, 0.0, size), p, before, after, unit, size)
  {
    if before >= 0.0 {
      NonNegativeProduct(before, unit);
    }
    if after >= 0.0 {
      NonNegativeProduct(after, unit);
    }
    assert (-before) * unit == -(before * unit);
  }

  lemma EdgeTerms(c: real, distance: real, st: real, scale: real)
    ensures (c * st - distance * st) * scale == c * st * scale + (-distance) * (st * scale)
    ensures (c * st + distance * st) * scale == c * st * scale + distance * (st * scale)
  {
  }

  lemma CornerInFrame(x: real, orig: real, input: real, scale: real)
    requires 0.0 <= x <= input && input > 0.0 && orig >= 0.0 && scale == orig / input
    ensures scale >= 0.0 && 0.0 <= x * scale <= orig
  {
    assert scale * input == orig;
    assert scale >= 0.0;
    NonNegativeProduct(x, scale);
    NonNegativeProduct(input - x, scale);
    assert (input - x) * scale == input * scale - x * scale;
  }

  lemma NonNegativeProduct(x: real, y: real)
    requires x >= 0.0 && y >= 0.0
    ensures x * y >= 0.0
  {
  }

  /** The column and row of a cell, times the stride, stay within the input. */
  lemma CellInInput(cell: nat, input: nat, st: nat)
    requires st > 0 && cell < input / st
    ensures cell * st <= input
  {
    DivMod(input, st);
    MulLe(cell, input / st, st);
  }

  /** The decoded anchor a of the cell in the given column and row: edges at the four predicted distances
      from the cell's corner in the frame, and the anchor's own score. */
  lemma BoxAroundCorner(d: Detector, si: nat, col: nat, row: nat, a: nat, origW: nat, origH: nat)
    requires d.Valid() && si < 3 && a < 2 && col < d.Columns(si) && row < d.inputH / STRIDES[si]
    ensures var idx, st := (row * d.Columns(si) + col) * 2 + a, StrideOf(si);
      && idx < d.Anchors(si)
      && var e, b := Decode(d, si, idx, origW, origH), d.levels[si].bboxes;
      && EdgesAround(e.box.x1, e.box.x2, CornerOf(col, st, origW, d.inputW), b[idx * 4], b[idx * 4 + 2],
                     PixelsPer(st, origW, d.inputW), origW as real)
      && EdgesAround(e.box.y1, e.box.y2, CornerOf(row, st, origH, d.inputH), b[idx * 4 + 1], b[idx * 4 + 3],
                     PixelsPer(st, origH, d.inputH), origH as real)
      && e.confidence == d.levels[si].scores[idx]
  {
    var idx, st, b := (row * d.Columns(si) + col) * 2 + a, StrideOf(si), d.levels[si].bboxes;
    CellDecoded(d, si, col, row, a, origW, origH);
    StrideIs(si);
    CellInInput(col, d.inputW, STRIDES[si]);
    CellInInput(row, d.inputH, STRIDES[si]);
    CellEdges(d, si, idx, col, row, origW, origH);
    hide *;
    AxisDecoded(col, b[idx * 4], b[idx * 4 + 2], st, origW, d.inputW);
    AxisDecoded(row, b[idx * 4 + 1], b[idx * 4 + 3], st, origH, d.inputH);
  }

  lemma CellEdges(d: Detector, si: nat, idx: nat, cx: nat, cy: nat, origW: nat, origH: nat)
    requires d.Valid() && si < 3 && idx < d.Anchors(si)
    ensures var e, b, st := DecodeCell(d, si, idx, cx, cy, origW, origH), d.levels[si].bboxes, StrideOf(si);
      && e.box.x1 == ClampF(EdgeBefore(cx, b[idx * 4], st, ScaleOf(origW, d.inputW)), 0.0, origW as real)
      && e.box.x2 == ClampF(EdgeAfter(cx, b[idx * 4 + 2], st, ScaleOf(origW, d.inputW)), 0.0, origW as real)
      && e.box.y1 == ClampF(EdgeBefore(cy, b[idx * 4 + 1], st, ScaleOf(origH, d.inputH)), 0.0, origH as real)
      && e.box.y2 == ClampF(EdgeAfter(cy, b[idx * 4 + 3], st, ScaleOf(origH, d.inputH)), 0.0, origH as real)
      && e.confidence == d.levels[si].scores[idx]
  {
    StrideIs(si);
    hide EdgeBefore, EdgeAfter, ClampF, ScaleOf;
  }

  lemma CellLandmarks(d: Detector, si: nat, idx: nat, cx: nat, cy: nat, origW: nat, origH: nat)
    requires d.Valid() && si < 3 && idx < d.Anchors(si)
    ensures var e, lm, st := DecodeCell(d, si, idx, cx, cy, origW, origH), d.levels[si].landmarks, StrideOf(si);
      |e.landmarks| == 5 && forall k :: 0 <= k < 5 ==>
        && e.landmarks[k].0 == EdgeAfter(cx, lm[idx * 10 + k * 2], st, ScaleOf(origW, d.inputW))
        && e.landmarks[k].1 == EdgeAfter(cy, lm[idx * 10 + k * 2 + 1], st, ScaleOf(origH, d.inputH))
  {
    StrideIs(si);
    hide EdgeAfter, ScaleOf, RawBox, Clamped;
  }

  lemma StrideIs(si: nat)
    requires si < 3
    ensures STRIDES[si] as real == StrideOf(si) > 0.0
  {
  }

  lemma CellDecoded(d: Detector, si: nat, col: nat, row: nat, a: nat, origW: nat, origH: nat)
    requires d.Valid() && si < 3 && a < 2 && col < d.Columns(si) && row < d.inputH / STRIDES[si]
    ensures var idx := (row * d.Columns(si) + col) * 2 + a;
      idx < d.Anchors(si) && Decode(d, si, idx, origW, origH) == DecodeCell(d, si, idx, col, row, origW, origH)
  {
    Cell(d.Columns(si), d.inputH / STRIDES[si], col, row, a);
    hide DecodeCell;
  }

  /** Its landmarks lie at their predicted offsets from the same corner. */
  lemma LandmarksAroundCorner(d: Detector, si: nat, col: nat, row: nat, a: nat, origW: nat, origH: nat, k: nat)
    requires d.Valid() && si < 3 && a < 2 && col < d.Columns(si) && row < d.inputH / STRIDES[si] && k < 5
    ensures var idx, st := (row * d.Columns(si) + col) * 2 + a, StrideOf(si);
      && idx < d.Anchors(si)
      && var e, lm := Decode(d, si, idx, origW, origH), d.levels[si].landmarks;
      && |e.landmarks| == 5
      && e.landmarks[k].0 == Beyond(CornerOf(col, st, origW, d.inputW), lm[idx * 10 + k * 2], PixelsPer(st, origW, d.inputW))
      && e.landmarks[k].1 == Beyond(CornerOf(row, st, origH, d.inputH), lm[idx * 10 + k * 2 + 1], PixelsPer(st, origH, d.inputH))
  {
    var idx, st, lm := (row * d.Columns(si) + col) * 2 + a, StrideOf(si), d.levels[si].landmarks;
    CellDecoded(d, si, col, row, a, origW, origH);
    CellLandmarks(d, si, idx, col, row, origW, origH);
    hide *;
    EdgeIs(col, lm[idx * 10 + k * 2], st, origW, d.inputW);
    EdgeIs(row, lm[idx * 10 + k * 2 + 1], st, origH, d.inputH);
  }

  /** What is found in one feature map: exactly the anchors that reach the threshold, each once, in the
      order of their numbers. */
  lemma {:induction false} PickedAnchors(d: Detector, si: nat, n: nat, origW: nat, origH: nat) returns (anchors: seq<nat>)
    requires d.Valid() && si < 3 && n <= d.Anchors(si)
    ensures forall i, j :: 0 <= i < j < |anchors| ==> anchors[i] < anchors[j]
    ensures forall idx :: idx in anchors <==> 0 <= idx < n && d.levels[si].scores[idx] >= d.threshold
    ensures |Picked(d, si, n, origW, origH)| == |anchors|
    ensures forall i :: 0 <= i < |anchors| ==>
      0 <= anchors[i] < d.Anchors(si) && Picked(d, si, n, origW, origH)[i] == Decode(d, si, anchors[i], origW, origH)
  {
    hide Decode;
    anchors := [];
    if n > 0 {
      anchors := PickedAnchors(d, si, n - 1, origW, origH);
      if d.levels[si].scores[n - 1] >= d.threshold {
        assert forall i :: 0 <= i < |anchors| ==> anchors[i] in anchors;
        anchors := anchors + [n - 1];
      }
    }
  }

  /** The three feature maps one after the other. */
  lemma ParsedInThree(d: Detector, origW: nat, origH: nat)
    requires d.Valid()
    ensures Parsed(d, |STRIDES|, origW, origH)
         == Picked(d, 0, d.Anchors(0), origW, origH) + Picked(d, 1, d.Anchors(1), origW, origH)
          + Picked(d, 2, d.Anchors(2), origW, origH)
  {
    hide Picked;
    assert Parsed(d, 0, origW, origH) == [];
    assert Parsed(d, 1, origW, origH) == Picked(d, 0, d.Anchors(0), origW, origH);
    assert Parsed(d, 2, origW, origH) == Picked(d, 0, d.Anchors(0), origW, origH) + Picked(d, 1, d.Anchors(1), origW, origH);
  }

  // ---- the size filter ----

  predicate LargeEnough(b: Box, minSize: real) {
    b.Width() >= minSize && b.Height() >= minSize
  }

  function LargeOnly(s: seq<Detection>, minSize: real): seq<Detection> {
    if s == [] then []
    else if LargeEnough(s[|s| - 1].box, minSize) then LargeOnly(s[..|s| - 1], minSize) + [s[|s| - 1]]
    else LargeOnly(s[..|s| - 1], minSize)
  }

  /** `filtered := detections[:0]` shares the array it reads from; the write index never passes the
      read index, so the kept prefix is the order-preserving filter of the original contents. */
  method FilterSmall(a: array<Detection>, minSize: real) returns (kept: nat)
    modifies a
    ensures kept <= a.Length
    ensures a[..kept] == if minSize > 0.0 then LargeOnly(old(a[..]), minSize) else old(a[..])
    ensures forall k :: kept <= k < a.Length ==> a[k] == old(a[k])
    ensures minSize > 0.0 ==> forall d :: d in a[..kept] <==>
      d in old(a[..]) && d.box.x2 - d.box.x1 >= minSize && d.box.y2 - d.box.y1 >= minSize
  {
    LargeOnlyElements(a[..], minSize);
    if minSize <= 0.0 {
      return a.Length;
    }
    kept := 0;
    ghost var was := a[..];
    for i := 0 to a.Length
      invariant kept <= i
      invariant a[..kept] == LargeOnly(was[..i], minSize)
      invariant forall k :: kept <= k < a.Length ==> a[k] == was[k]
    {
      var d := a[i];
      assert was[..i + 1][..i] == was[..i];
      if d.box.x2 - d.box.x1 >= minSize && d.box.y2 - d.box.y1 >= minSize {
        a[kept] := d;
        kept := kept + 1;
      }
    }
    assert was[..a.Length] == was;
  }

  /** A box the tracker may be given: inside its frame and no side shorter than the minimum. */
  predicate GoodBox(b: Box, origW: nat, origH: nat, minSize: real) {
    InFrame(b, origW, origH) && LargeEnough(b, minSize)
  }

  lemma {:induction false} LargeOnlyElements(s: seq<Detection>, minSize: real)
    ensures forall d :: d in LargeOnly(s, minSize) <==> d in s && LargeEnough(d.box, minSize)
    ensures forall d :: d in LargeOnly(s, minSize) <==>
      d in s && d.box.x2 - d.box.x1 >= minSize && d.box.y2 - d.box.y1 >= minSize
  {
    if s != [] {
      var p := s[..|s| - 1];
      assert s == p + [s[|s| - 1]];
      LargeOnlyElements(p, minSize);
    }
  }

  /** Filtering only drops survivors, so those that stay are still pairwise within the threshold. */
  lemma {:induction false} FilteredStaySeparated(s: seq<Detection>, threshold: real, minSize: real)
    requires Separated(s, threshold)
    ensures Separated(LargeOnly(s, minSize), threshold)
  {
    if s != [] {
      var p, d := s[..|s| - 1], s[|s| - 1];
      assert s == p + [d];
      FilteredStaySeparated(p, threshold, minSize);
      LargeOnlyElements(p, minSize);
      hide Clashes, LargeEnough;
      var r := LargeOnly(p, minSize);
      forall e | e in r ensures !Clashes(e, d, threshold) {
        var i :| 0 <= i < |p| && p[i] == e;
        assert s[i] == e;
      }
    }
  }

  /** Decoding, suppression and filtering together: the tracker sees only good boxes, even though
      decoding alone can produce inverted ones. */
  lemma DetectedBoxesAreGood(d: Detector, sorted: seq<Detection>, origW: nat, origH: nat, threshold: real, minSize: real)
    requires d.Valid()
    requires SortedPermutation(sorted, Parsed(d, |STRIDES|, origW, origH))
    ensures forall e :: e in LargeOnly(Greedy(sorted, threshold), minSize) ==> GoodBox(e.box, origW, origH, minSize)
  {
    ParsedInFrame(d, |STRIDES|, origW, origH);
    SurvivorsAmong(sorted, threshold);
    LargeOnlyElements(Greedy(sorted, threshold), minSize);
    forall e | e in sorted ensures e in Parsed(d, |STRIDES|, origW, origH) {
      assert e in multiset(sorted);
    }
  }

  // ---- inverted boxes ----

  /** Clamping puts two edges in order unless both lie within the frame or beyond opposite ends. */
  lemma ClampedOrder(l: real, r: real, size: nat)
    ensures ClampF(l, 0.0, size as real) <= ClampF(r, 0.0, size as real)
      <==> size == 0 || l <= r || l <= 0.0 || r >= size as real
  {
  }

  /** Two distances that add up to less than nothing cross the edges. */
  lemma EdgeOrder(cell: nat, before: real, after: real, st: real, scale: real)
    requires st > 0.0 && scale > 0.0
    ensures EdgeBefore(cell, before, st, scale) <= EdgeAfter(cell, after, st, scale) <==> before + after >= 0.0
  {
    var gap := before + after;
    assert EdgeAfter(cell, after, st, scale) - EdgeBefore(cell, before, st, scale) == gap * (st * scale);
    if gap < 0.0 {
      NegativeProduct(gap, st * scale);
    }
  }

  lemma NegativeProduct(x: real, y: real)
    requires x < 0.0 && y > 0.0
    ensures x * y < 0.0
  {
  }

  lemma AxisOrder(cell: nat, before: real, after: real, st: real, orig: nat, input: nat)
    requires st > 0.0 && input > 0
    ensures var scale := ScaleOf(orig, input);
      var l, r := EdgeBefore(cell, before, st, scale), EdgeAfter(cell, after, st, scale);
      (ClampF(l, 0.0, orig as real) <= ClampF(r, 0.0, orig as real)) <==> EdgesKept(before, after, l, r, orig)
  {
    var scale := ScaleOf(orig, input);
    ClampedOrder(EdgeBefore(cell, before, st, scale), EdgeAfter(cell, after, st, scale), orig);
    if orig > 0 {
      ScalePositive(orig, input);
      EdgeOrder(cell, before, after, st, scale);
    }
    hide ClampF, EdgeBefore, EdgeAfter, ScaleOf;
  }

  lemma ScalePositive(orig: nat, input: nat)
    requires orig > 0 && input > 0
    ensures ScaleOf(orig, input) > 0.0
  {
  }

  /** One axis of the model's output: the two distances add up to at least zero, or an unclamped edge is
      outside the frame on its own side. */
  predicate EdgesKept(before: real, after: real, left: real, right: real, size: nat) {
    size == 0 || before + after >= 0.0 || left <= 0.0 || right >= size as real
  }

  /** Exactly which model outputs decode to a box with its corners in order. */
  lemma DecodedOrder(d: Detector, si: nat, idx: nat, origW: nat, origH: nat)
    requires d.Valid() && si < |STRIDES| && idx < d.Anchors(si)
    ensures var b, cell := d.levels[si].bboxes, idx / ANCHORS_PER_STRIDE;
      var raw := RawBox(d, si, idx, cell % d.Columns(si), cell / d.Columns(si), origW, origH);
      Proper(Decode(d, si, idx, origW, origH).box) <==>
        && EdgesKept(b[idx * 4], b[idx * 4 + 2], raw.x1, raw.x2, origW)
        && EdgesKept(b[idx * 4 + 1], b[idx * 4 + 3], raw.y1, raw.y2, origH)
  {
    var cell := idx / ANCHORS_PER_STRIDE;
    var cx, cy, b, st := cell % d.Columns(si), cell / d.Columns(si), d.levels[si].bboxes, STRIDES[si] as real;
    assert st > 0.0;
    AxisOrder(cx, b[idx * 4], b[idx * 4 + 2], st, origW, d.inputW);
    AxisOrder(cy, b[idx * 4 + 1], b[idx * 4 + 3], st, origH, d.inputH);
    hide ClampF, EdgesKept, EdgeBefore, EdgeAfter, ScaleOf;
  }

  /** An anchor that reaches the threshold is among the decoded. */
  lemma ParsedHas(d: Detector, si: nat, idx: nat, origW: nat, origH: nat)
    requires d.Valid() && si < |STRIDES| && idx < d.Anchors(si) && d.levels[si].scores[idx] >= d.threshold
    ensures Decode(d, si, idx, origW, origH) in Parsed(d, |STRIDES|, origW, origH)
  {
    PickedHas(d, si, d.Anchors(si), idx, origW, origH);
    hide Picked, Decode;
    assert Decode(d, si, idx, origW, origH) in Parsed(d, si + 1, origW, origH);
    ParsedGrows(d, si + 1, |STRIDES|, origW, origH, Decode(d, si, idx, origW, origH));
  }

  lemma {:induction false} PickedHas(d: Detector, si: nat, n: nat, idx: nat, origW: nat, origH: nat)
    requires d.Valid() && si < |STRIDES| && idx < n <= d.Anchors(si) && d.levels[si].scores[idx] >= d.threshold
    ensures Decode(d, si, idx, origW, origH) in Picked(d, si, n, origW, origH)
  {
    hide Decode;
    if idx < n - 1 {
      PickedHas(d, si, n - 1, idx, origW, origH);
    }
  }

  lemma {:induction false} ParsedGrows(d: Detector, m: nat, n: nat, origW: nat, origH: nat, e: Detection)
    requires d.Valid() && m <= n <= |STRIDES| && e in Parsed(d, m, origW, origH)
    ensures e in Parsed(d, n, origW, origH)
  {
    hide Picked;
    if m < n {
      ParsedGrows(d, m, n - 1, origW, origH, e);
    }
  }

  function Zeros(n: nat): (r: seq<real>)
    ensures |r| == n && forall i :: 0 <= i < n ==> r[i] == 0.0
  {
    seq(n, _ => 0.0)
  }

  /** Tensors of the size the source allocates, all zero but for the first anchor of stride 8. */
  function OneAnchor(score: real, left: real, right: real): Detector {
    Detector([Level(Zeros(12800)[0 := score], Zeros(51200)[0 := left][2 := right], Zeros(128000)),
              Level(Zeros(3200), Zeros(12800), Zeros(32000)),
              Level(Zeros(800), Zeros(3200), Zeros(8000))], 0.5, 640, 640)
  }

  lemma OneAnchorValid(score: real, left: real, right: real)
    ensures OneAnchor(score, left, right).Valid()
  {
    var d := OneAnchor(score, left, right);
    hide Zeros;
    assert d.Anchors(0) == 12800;
    assert d.Anchors(1) == 3200;
    assert d.Anchors(2) == 800;
    hide Detector.Anchors;
  }

  /** The first anchor sits in the corner of the frame. */
  lemma FirstAnchor(d: Detector)
    requires d.Valid() && d.inputW == d.inputH == 640
    ensures d.Anchors(0) == 12800
    ensures var b := d.levels[0].bboxes;
      Decode(d, 0, 0, 640, 640).box == Clamped(Box(-b[0] * 8.0, -b[1] * 8.0, b[2] * 8.0, b[3] * 8.0), 640, 640)
  {
    assert ScaleOf(640, 640) == 1.0;
    hide Clamped;
  }

  /** Decoding does produce inverted boxes: a face whose left edge is predicted to the right of its
      right edge, both within the frame. */
  lemma DecodingCanInvert() returns (d: Detector, e: Detection)
    ensures d == OneAnchor(0.9, -1.0, 0.5) && d.Valid()
    ensures e in Parsed(d, |STRIDES|, 640, 640) && e.box == Box(8.0, 0.0, 4.0, 0.0) && !Proper(e.box)
  {
    d := OneAnchor(0.9, -1.0, 0.5);
    OneAnchorValid(0.9, -1.0, 0.5);
    FirstAnchor(d);
    e := Decode(d, 0, 0, 640, 640);
    assert e.box == Clamped(Box(8.0, 0.0, 4.0, 0.0), 640, 640);
    hide Decode, Parsed, Zeros;
    assert d.levels[0].scores[0] == 0.9;
    ParsedHas(d, 0, 0, 640, 640);
  }
}
