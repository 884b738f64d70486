/**
Resizing and tensor layout (internal/vision/pipeline.go), on the RGBA fast paths.
*/
module Image {
  import opened Arithmetic

  type Byte = b: int | 0 <= b < 0x100

  datatype Pixel = Pixel(r: Byte, g: Byte, b: Byte, a: Byte)

  /** An image as rows of pixels; all rows have width w. */
  datatype Raster = Raster(w: nat, rows: seq<seq<Pixel>>) {
    predicate Valid() {
      forall y :: 0 <= y < |rows| ==> |rows[y]| == w
    }

    function Height(): nat { |rows| }
  }

  datatype Scale = Scale(mean: (real, real, real), std: (real, real, real)) {
    predicate Valid() { std.0 != 0.0 && std.1 != 0.0 && std.2 != 0.0 }
  }

  /** Nearest source index: k * from / to. */
  function SourceIndex(k: nat, from: nat, to: nat): (i: nat)
    requires k < to && from > 0
    ensures i < from
  {
    ScaledBelow(k, from, to);
    k * from / to
  }

  lemma ScaledBelow(k: nat, from: nat, to: nat)
    requires k < to && from > 0
    ensures 0 <= k * from / to < from
  {
    var q := k * from / to;
    assert k * from == q * to + k * from % to;
    assert (to - k) * from > 0;
    CancelLess(q, from, to);
  }

  // ---- what the two functions compute ----

  function Sample(src: Raster, width: nat, height: nat, x: nat, y: nat): Pixel
    requires src.Valid() && src.w > 0 && src.Height() > 0
    requires x < width && y < height
  {
    src.rows[SourceIndex(y, src.Height(), height)][SourceIndex(x, src.w, width)]
  }

  function Resized(src: Raster, width: nat, height: nat): (r: Raster)
    requires src.Valid() && src.w > 0 && src.Height() > 0
    ensures r.Valid() && r.w == width && r.Height() == height
    ensures forall x, y :: 0 <= x < width && 0 <= y < height ==> r.rows[y][x] == Sample(src, width, height, x, y)
  {
    Raster(width, seq(height, y requires 0 <= y < height =>
      seq(width, x requires 0 <= x < width => Sample(src, width, height, x, y))))
  }

  /** (channel - mean) / std for channel 0, 1 or 2. */
  function Normal(p: Pixel, s: Scale, c: nat): real
    requires s.Valid() && c < 3
  {
    if c == 0 then (p.r as real - s.mean.0) / s.std.0
    else if c == 1 then (p.g as real - s.mean.1) / s.std.1
    else (p.b as real - s.mean.2) / s.std.2
  }

  /** One plane: cell k holds the sample of row k / width, column k % width. */
  function Plane(src: Raster, width: nat, height: nat, s: Scale, c: nat): (r: seq<real>)
    requires src.Valid() && src.w > 0 && src.Height() > 0 && s.Valid() && c < 3
    ensures |r| == height * width
    ensures forall k :: 0 <= k < |r| ==> r[k] == Cell(src, width, height, s, c, k)
  {
    seq(height * width, k requires 0 <= k < height * width => Cell(src, width, height, s, c, k))
  }

  function Cell(src: Raster, width: nat, height: nat, s: Scale, c: nat, k: nat): real
    requires src.Valid() && src.w > 0 && src.Height() > 0 && s.Valid() && c < 3 && k < height * width
  {
    CellPosition(width, height, k);
    Normal(Sample(src, width, height, k % width, k / width), s, c)
  }

  lemma CellPosition(width: nat, height: nat, k: nat)
    requires k < height * width
    ensures width > 0 && 0 <= k / width < height
  {
    assert k == k / width * width + k % width;
    CancelLess(k / width, height, width);
  }

  /** The tensor in CHW order: three planes, one after the other. */
  function Planes(src: Raster, width: nat, height: nat, s: Scale): seq<real>
    requires src.Valid() && src.w > 0 && src.Height() > 0 && s.Valid()
  {
    Plane(src, width, height, s, 0) + Plane(src, width, height, s, 1) + Plane(src, width, height, s, 2)
  }

  /** Converting with a resize is resizing, then converting at the same size. */
  lemma FusedResize(src: Raster, width: nat, height: nat, s: Scale)
    requires src.Valid() && src.w > 0 && src.Height() > 0 && s.Valid() && width > 0 && height > 0
    ensures Planes(src, width, height, s) == Planes(Resized(src, width, height), width, height, s)
  {
    forall c: nat | c < 3 ensures Plane(src, width, height, s, c) == Plane(Resized(src, width, height), width, height, s, c) {
      PlaneOfResized(src, width, height, s, c);
    }
  }

  lemma PlaneOfResized(src: Raster, width: nat, height: nat, s: Scale, c: nat)
    requires src.Valid() && src.w > 0 && src.Height() > 0 && s.Valid() && width > 0 && height > 0 && c < 3
    ensures Plane(src, width, height, s, c) == Plane(Resized(src, width, height), width, height, s, c)
  {
    hide Normal;
    var r := Resized(src, width, height);
    forall k | 0 <= k < height * width
      ensures Cell(src, width, height, s, c, k) == Cell(r, width, height, s, c, k)
    {
      CellPosition(width, height, k);
      SameSize(k % width, width);
      SameSize(k / width, height);
    }
  }

  lemma SameSize(k: nat, n: nat)
    requires k < n
    ensures SourceIndex(k, n, n) == k
  {
    DivExact(k, n);
  }

  lemma DivExact(k: nat, n: nat)
    requires n > 0
    ensures k * n / n == k
  {
    var q := k * n / n;
    assert k * n == q * n + k * n % n;
    assert (k - q) * n == k * n - q * n;
    SmallMultiple(k - q, n);
  }

  // ---- image.RGBA ----

  /** Pixels in a shared buffer: `base` is where the image's slice starts in it, so a sub-image shares
      the buffer of its parent. */
  class Rgba {
    const pix: array<Byte>
    const base: nat
    const stride: nat
    const minX: int
    const minY: int
    const w: nat
    const h: nat

    predicate Valid() {
      stride >= 4 * w && (h > 0 ==> base + (h - 1) * stride + 4 * w <= pix.Length)
    }

    function PixOffset(x: int, y: int): int {
      (y - minY) * stride + (x - minX) * 4
    }

    lemma InBuffer(x: int, y: int)
      requires Valid() && minX <= x < minX + w && minY <= y < minY + h
      ensures 0 <= PixOffset(x, y) && base + PixOffset(x, y) + 4 <= pix.Length
    {
      MulLe(0, y - minY, stride);
      MulLe(y - minY, h - 1, stride);
    }

    function PixelAt(x: int, y: int): Pixel
      requires Valid() && minX <= x < minX + w && minY <= y < minY + h
      reads pix
    {
      InBuffer(x, y);
      var off := base + PixOffset(x, y);
      Pixel(pix[off], pix[off + 1], pix[off + 2], pix[off + 3])
    }

    function View(): (r: Raster)
      requires Valid()
      reads pix
      ensures r.Valid() && r.w == w && r.Height() == h
      ensures forall x, y :: 0 <= x < w && 0 <= y < h ==> r.rows[y][x] == PixelAt(minX + x, minY + y)
    {
      Raster(w, seq(h, y requires 0 <= y < h reads pix =>
        seq(w, x requires 0 <= x < w reads pix => PixelAt(minX + x, minY + y))))
    }

    /** image.NewRGBA(image.Rect(0, 0, w, h)) */
    constructor (w: nat, h: nat)
      ensures Valid() && fresh(pix) && this.w == w && this.h == h && minX == 0 && minY == 0
      ensures base == 0 && stride == 4 * w && pix.Length == 4 * (h * w)
    {
      this.w, this.h := w, h;
      base, stride, minX, minY := 0, 4 * w, 0, 0;
      pix := new Byte[4 * (h * w)];
      new;
      assert h > 0 ==> (h - 1) * stride + 4 * w == 4 * (h * w);
    }
  }

  /** The cell the loops write at row y, column x. */
  lemma CellAt(src: Raster, width: nat, height: nat, s: Scale, c: nat, x: nat, y: nat)
    requires src.Valid() && src.w > 0 && src.Height() > 0 && s.Valid() && c < 3 && x < width && y < height
    ensures y * width + x < height * width
    ensures Plane(src, width, height, s, c)[y * width + x] == Normal(Sample(src, width, height, x, y), s, c)
  {
    RowBound(width, height, y);
    DivUnique(y * width + x, width, y, x);
    assert Plane(src, width, height, s, c)[y * width + x] == Cell(src, width, height, s, c, y * width + x);
  }

  /** The three planes are filled side by side; cell k of plane c is written once, at turn k. */
  method ImageToFloat32CHW(img: Rgba, targetW: nat, targetH: nat, s: Scale) returns (data: array<real>)
    requires img.Valid() && img.w > 0 && img.h > 0 && s.Valid()
    ensures fresh(data) && data[..] == Planes(img.View(), targetW, targetH, s)
  {
    hide Plane, Sample, Normal, Rgba.View, Rgba.PixelAt, Filled, SourceIndex;
    var planeSize := targetH * targetW;
    data := new real[3 * planeSize];
    NothingFilled(data, planeSize);
    ghost var src := img.View();
    ghost var p0, p1, p2 := Plane(src, targetW, targetH, s, 0), Plane(src, targetW, targetH, s, 1), Plane(src, targetW, targetH, s, 2);
    for y := 0 to targetH
      invariant Filled(data, planeSize, p0, p1, p2, y * targetW)
    {
      var srcY := img.minY + SourceIndex(y, img.h, targetH);
      ghost var row: nat := y * targetW;
      for x := 0 to targetW
        invariant Filled(data, planeSize, p0, p1, p2, row + x)
      {
        var srcX := img.minX + SourceIndex(x, img.w, targetW);
        var pix := img.PixelAt(srcX, srcY);
        var idx := y * targetW + x;
        CellsAt(img, targetW, targetH, s, x, y, idx);
        WriteCell(data, planeSize, idx, pix, s, p0, p1, p2);
      }
      NextRow(y, targetW);
    }
    AllFilled(data, planeSize, p0, p1, p2);
  }

  lemma CellsAt(img: Rgba, width: nat, height: nat, s: Scale, x: nat, y: nat, idx: nat)
    requires img.Valid() && img.w > 0 && img.h > 0 && s.Valid() && x < width && y < height
    requires idx == y * width + x
    ensures idx < height * width
    ensures var pix := img.PixelAt(img.minX + SourceIndex(x, img.w, width), img.minY + SourceIndex(y, img.h, height));
      && Plane(img.View(), width, height, s, 0)[idx] == Normal(pix, s, 0)
      && Plane(img.View(), width, height, s, 1)[idx] == Normal(pix, s, 1)
      && Plane(img.View(), width, height, s, 2)[idx] == Normal(pix, s, 2)
  {
    SampleIsPixel(img, width, height, x, y);
    hide *;
    CellAt(img.View(), width, height, s, 0, x, y);
    CellAt(img.View(), width, height, s, 1, x, y);
    CellAt(img.View(), width, height, s, 2, x, y);
  }

  /** The source index is the one whose stretch of the target contains k. */
  lemma SourceIndexIs(k: nat, from: nat, to: nat, i: nat)
    requires k < to && from > 0
    ensures SourceIndex(k, from, to) == i <==> i * to <= k * from < (i + 1) * to
  {
    Distribute(i, 1, to);
    if i * to <= k * from < (i + 1) * to {
      DivUnique(k * from, to, i, k * from - i * to);
    }
    if SourceIndex(k, from, to) == i {
      DivMod(k * from, to);
    }
  }

  /** The four bytes of a sampled pixel. */
  lemma SampleBytes(img: Rgba, width: nat, height: nat, x: nat, y: nat, i: nat, j: nat)
    requires img.Valid() && img.w > 0 && img.h > 0 && x < width && y < height
    requires i * height <= y * img.h < (i + 1) * height && j * width <= x * img.w < (j + 1) * width
    ensures i < img.h && j < img.w
    ensures var o := img.base + (i * img.stride + 4 * j);
      0 <= o && o + 4 <= img.pix.Length
      && Sample(img.View(), width, height, x, y) == Pixel(img.pix[o], img.pix[o + 1], img.pix[o + 2], img.pix[o + 3])
  {
    SourceIndexIs(y, img.h, height, i);
    SourceIndexIs(x, img.w, width, j);
    SampleIsPixel(img, width, height, x, y);
    hide SourceIndex, Sample, Rgba.View, Rgba.Valid;
    PixelBytes(img, j, i);
  }

  lemma PixelBytes(img: Rgba, j: nat, i: nat)
    requires img.Valid() && j < img.w && i < img.h
    ensures var o := img.base + (i * img.stride + 4 * j);
      0 <= o && o + 4 <= img.pix.Length
      && img.PixelAt(img.minX + j, img.minY + i) == Pixel(img.pix[o], img.pix[o + 1], img.pix[o + 2], img.pix[o + 3])
  {
    img.InBuffer(img.minX + j, img.minY + i);
    assert img.PixOffset(img.minX + j, img.minY + i) == i * img.stride + 4 * j;
    hide Rgba.PixOffset, Rgba.Valid;
  }

  /** The tensor by bytes: at row y and column x the three planes hold bytes 0, 1 and 2 of the source pixel
      in row i and column j, less the mean, over the deviation of that channel. */
  lemma TensorBytes(img: Rgba, width: nat, height: nat, s: Scale, x: nat, y: nat, i: nat, j: nat, n: nat, k: nat, o: nat)
    requires img.Valid() && img.w > 0 && img.h > 0 && s.Valid() && x < width && y < height
    requires i * height <= y * img.h < (i + 1) * height && j * width <= x * img.w < (j + 1) * width
    requires n == height * width && k == y * width + x && o == img.base + (i * img.stride + 4 * j)
    ensures i < img.h && j < img.w && k < n && o + 4 <= img.pix.Length
    ensures var t := Planes(img.View(), width, height, s);
      && |t| == 3 * n
      && t[k] == (img.pix[o] as real - s.mean.0) / s.std.0
      && t[n + k] == (img.pix[o + 1] as real - s.mean.1) / s.std.1
      && t[2 * n + k] == (img.pix[o + 2] as real - s.mean.2) / s.std.2
  {
    SampleBytes(img, width, height, x, y, i, j);
    CellsSampled(img.View(), width, height, s, x, y, n, k);
    hide *;
    ChannelOf(Pixel(img.pix[o], img.pix[o + 1], img.pix[o + 2], img.pix[o + 3]), s);
  }

  lemma CellsSampled(src: Raster, width: nat, height: nat, s: Scale, x: nat, y: nat, n: nat, k: nat)
    requires src.Valid() && src.w > 0 && src.Height() > 0 && s.Valid() && x < width && y < height
    requires n == height * width && k == y * width + x
    ensures k < n
    ensures var t, p := Planes(src, width, height, s), Sample(src, width, height, x, y);
      && |t| == 3 * n
      && t[k] == Normal(p, s, 0) && t[n + k] == Normal(p, s, 1) && t[2 * n + k] == Normal(p, s, 2)
  {
    hide Plane, Sample, Normal, Planes;
    CellAt(src, width, height, s, 0, x, y);
    CellAt(src, width, height, s, 1, x, y);
    CellAt(src, width, height, s, 2, x, y);
    PlaneInPlanes(src, width, height, s, 0, k, n);
    PlaneInPlanes(src, width, height, s, 1, k, n);
    PlaneInPlanes(src, width, height, s, 2, k, n);
  }

  lemma ChannelOf(p: Pixel, s: Scale)
    requires s.Valid()
    ensures Normal(p, s, 0) == (p.r as real - s.mean.0) / s.std.0
    ensures Normal(p, s, 1) == (p.g as real - s.mean.1) / s.std.1
    ensures Normal(p, s, 2) == (p.b as real - s.mean.2) / s.std.2
  {
  }

  lemma PlaneInPlanes(src: Raster, width: nat, height: nat, s: Scale, c: nat, k: nat, n: nat)
    requires src.Valid() && src.w > 0 && src.Height() > 0 && s.Valid() && c < 3 && n == height * width && k < n
    ensures |Planes(src, width, height, s)| == 3 * n
    ensures c == 0 ==> Planes(src, width, height, s)[k] == Plane(src, width, height, s, c)[k]
    ensures c == 1 ==> Planes(src, width, height, s)[n + k] == Plane(src, width, height, s, c)[k]
    ensures c == 2 ==> Planes(src, width, height, s)[2 * n + k] == Plane(src, width, height, s, c)[k]
  {
    hide Plane;
  }

  /** The resized image by bytes. */
  lemma ResizedBytes(img: Rgba, width: nat, height: nat, x: nat, y: nat, i: nat, j: nat)
    requires img.Valid() && img.w > 0 && img.h > 0 && x < width && y < height
    requires i * height <= y * img.h < (i + 1) * height && j * width <= x * img.w < (j + 1) * width
    ensures i < img.h && j < img.w
    ensures var o := img.base + (i * img.stride + 4 * j);
      0 <= o && o + 4 <= img.pix.Length
      && Resized(img.View(), width, height).rows[y][x]
           == Pixel(img.pix[o], img.pix[o + 1], img.pix[o + 2], img.pix[o + 3])
  {
    SampleBytes(img, width, height, x, y, i, j);
    hide Sample, Rgba.Valid;
  }

  lemma NextRow(y: nat, width: nat)
    ensures y * width + width == (y + 1) * width
  {
  }

  lemma NothingFilled(data: array<real>, planeSize: nat)
    requires data.Length == 3 * planeSize
    ensures forall p0, p1, p2 :: |p0| == |p1| == |p2| == planeSize ==> Filled(data, planeSize, p0, p1, p2, 0)
  {
  }

  lemma AllFilled(data: array<real>, planeSize: nat, p0: seq<real>, p1: seq<real>, p2: seq<real>)
    requires Filled(data, planeSize, p0, p1, p2, planeSize)
    ensures data[..] == p0 + p1 + p2
  {
  }

  lemma SampleIsPixel(img: Rgba, width: nat, height: nat, x: nat, y: nat)
    requires img.Valid() && img.w > 0 && img.h > 0 && x < width && y < height
    ensures Sample(img.View(), width, height, x, y)
         == img.PixelAt(img.minX + SourceIndex(x, img.w, width), img.minY + SourceIndex(y, img.h, height))
  {
  }

  method WriteCell(data: array<real>, planeSize: nat, idx: nat, pix: Pixel, s: Scale,
                   ghost p0: seq<real>, ghost p1: seq<real>, ghost p2: seq<real>)
    requires s.Valid() && idx < planeSize && Filled(data, planeSize, p0, p1, p2, idx)
    requires p0[idx] == Normal(pix, s, 0) && p1[idx] == Normal(pix, s, 1) && p2[idx] == Normal(pix, s, 2)
    modifies data
    ensures Filled(data, planeSize, p0, p1, p2, idx + 1)
  {
    data[idx] := (pix.r as real - s.mean.0) / s.std.0;
    data[planeSize + idx] := (pix.g as real - s.mean.1) / s.std.1;
    data[2 * planeSize + idx] := (pix.b as real - s.mean.2) / s.std.2;
  }

  ghost predicate Filled(data: array<real>, planeSize: nat, p0: seq<real>, p1: seq<real>, p2: seq<real>, n: nat)
    reads data
  {
    && data.Length == 3 * planeSize && |p0| == |p1| == |p2| == planeSize && n <= planeSize
    && forall k :: 0 <= k < n ==>
         data[k] == p0[k] && data[planeSize + k] == p1[k] && data[2 * planeSize + k] == p2[k]
  }

  // ---- resizeImage ----

  function Bytes(pix: array<Byte>, k: nat): Pixel
    requires 4 * k + 4 <= pix.Length
    reads pix
  {
    Pixel(pix[4 * k], pix[4 * k + 1], pix[4 * k + 2], pix[4 * k + 3])
  }

  /** The sample that pixel k of a packed buffer should hold. */
  function PackedSample(src: Raster, width: nat, height: nat, k: nat): Pixel
    requires src.Valid() && src.w > 0 && src.Height() > 0 && k < height * width
  {
    CellPosition(width, height, k);
    Sample(src, width, height, k % width, k / width)
  }

  lemma PackedAt(src: Raster, width: nat, height: nat, x: nat, y: nat)
    requires src.Valid() && src.w > 0 && src.Height() > 0 && x < width && y < height
    ensures y * width + x < height * width
    ensures PackedSample(src, width, height, y * width + x) == Sample(src, width, height, x, y)
  {
    RowBound(width, height, y);
    DivUnique(y * width + x, width, y, x);
  }

  ghost predicate Copied(pix: array<Byte>, src: Raster, width: nat, height: nat, n: nat)
    requires src.Valid() && src.w > 0 && src.Height() > 0
    reads pix
  {
    && pix.Length == 4 * (height * width) && n <= height * width
    && forall k :: 0 <= k < n ==> Bytes(pix, k) == PackedSample(src, width, height, k)
  }

  method CopyPixel(pix: array<Byte>, p: Pixel, ghost src: Raster, ghost width: nat, ghost height: nat, k: nat)
    requires src.Valid() && src.w > 0 && src.Height() > 0 && k < height * width
    requires Copied(pix, src, width, height, k) && p == PackedSample(src, width, height, k)
    modifies pix
    ensures Copied(pix, src, width, height, k + 1)
  {
    hide PackedSample;
    pix[4 * k], pix[4 * k + 1], pix[4 * k + 2], pix[4 * k + 3] := p.r, p.g, p.b, p.a;
  }

  /** The packed image of a filled buffer is the resized picture. */
  lemma CopiedIsResized(dst: Rgba, src: Raster)
    requires dst.Valid() && dst.minX == 0 && dst.minY == 0 && dst.base == 0 && dst.stride == 4 * dst.w
    requires src.Valid() && src.w > 0 && src.Height() > 0
    requires Copied(dst.pix, src, dst.w, dst.h, dst.h * dst.w)
    ensures dst.View() == Resized(src, dst.w, dst.h)
  {
    hide Sample, PackedSample, SourceIndex, Copied, Rgba.PixelAt;
    var v, r := dst.View(), Resized(src, dst.w, dst.h);
    forall x, y | 0 <= x < dst.w && 0 <= y < dst.h ensures v.rows[y][x] == r.rows[y][x] {
      CopiedAt(dst, src, x, y);
    }
    hide Rgba.View;
    forall y | 0 <= y < dst.h ensures v.rows[y] == r.rows[y] {
    }
  }

  lemma CopiedAt(dst: Rgba, src: Raster, x: nat, y: nat)
    requires dst.Valid() && dst.minX == 0 && dst.minY == 0 && dst.base == 0 && dst.stride == 4 * dst.w
    requires src.Valid() && src.w > 0 && src.Height() > 0
    requires Copied(dst.pix, src, dst.w, dst.h, dst.h * dst.w) && x < dst.w && y < dst.h
    ensures dst.PixelAt(x, y) == Sample(src, dst.w, dst.h, x, y)
  {
    hide Sample, PackedSample;
    var k := y * dst.w + x;
    PackedAt(src, dst.w, dst.h, x, y);
    assert dst.PixOffset(x, y) == 4 * k by { FourTimes(y, dst.w); }
    assert Bytes(dst.pix, k) == PackedSample(src, dst.w, dst.h, k);
  }

  lemma FourTimes(y: nat, w: nat)
    ensures y * (4 * w) == 4 * (y * w)
  {
  }

  method ResizeImage(img: Rgba, targetW: nat, targetH: nat) returns (dst: Rgba)
    requires img.Valid() && img.w > 0 && img.h > 0
    ensures fresh(dst) && fresh(dst.pix) && dst.Valid()
    ensures dst.View() == Resized(img.View(), targetW, targetH)
  {
    hide Sample, PackedSample, Rgba.View, Rgba.PixelAt, Copied, Resized;
    ghost var src := img.View();
    dst := new Rgba(targetW, targetH);
    NothingCopied(dst.pix, src, targetW, targetH);
    for y := 0 to targetH
      invariant Copied(dst.pix, src, targetW, targetH, y * targetW)
    {
      var srcY := img.minY + SourceIndex(y, img.h, targetH);
      RowBound(targetW, targetH, y);
      for x := 0 to targetW
        invariant Copied(dst.pix, src, targetW, targetH, y * targetW + x)
      {
        var srcX := img.minX + SourceIndex(x, img.w, targetW);
        var pix := img.PixelAt(srcX, srcY);
        assert pix == Sample(src, targetW, targetH, x, y) by { SampleIsPixel(img, targetW, targetH, x, y); }
        PackedAt(src, targetW, targetH, x, y);
        CopyPixel(dst.pix, pix, src, targetW, targetH, y * targetW + x);
      }
      NextRow(y, targetW);
    }
    CopiedIsResized(dst, src);
  }

  lemma NothingCopied(pix: array<Byte>, src: Raster, width: nat, height: nat)
    requires src.Valid() && src.w > 0 && src.Height() > 0 && pix.Length == 4 * (height * width)
    ensures Copied(pix, src, width, height, 0)
  {
  }

  /** Every cell of the tensor belongs to exactly one channel, row and column. */
  lemma CellsPartition(width: nat, height: nat, i: nat)
    requires i < 3 * (height * width)
    ensures exists c: nat, y: nat, x: nat :: IsCell(width, height, i, c, y, x)
    ensures forall c: nat, y: nat, x: nat, c': nat, y': nat, x': nat ::
      IsCell(width, height, i, c, y, x) && IsCell(width, height, i, c', y', x') ==> c == c' && y == y' && x == x'
  {
    var plane := height * width;
    var c, k := WhichPlane(plane, i);
    CellPosition(width, height, k);
    assert IsCell(width, height, i, c, k / width, k % width) by { DivMod(k, width); }
    forall d: nat, y: nat, x: nat | IsCell(width, height, i, d, y, x) ensures d == c && y == k / width && x == k % width {
      RowBound(width, height, y);
      SamePlane(plane, d, y * width + x, c, k);
      DivUnique(k, width, y, x);
    }
  }

  lemma WhichPlane(plane: nat, i: nat) returns (c: nat, k: nat)
    requires i < 3 * plane
    ensures c < 3 && k < plane && i == c * plane + k
  {
    c := if i < plane then 0 else if i < 2 * plane then 1 else 2;
    k := i - c * plane;
  }

  lemma SamePlane(plane: nat, c: nat, k: nat, c': nat, k': nat)
    requires c < 3 && c' < 3 && k < plane && k' < plane && c * plane + k == c' * plane + k'
    ensures c == c' && k == k'
  {
    assert (c - c') * plane == c * plane - c' * plane;
    SmallMultiple(c - c', plane);
  }

  predicate IsCell(width: nat, height: nat, i: nat, c: nat, y: nat, x: nat) {
    c < 3 && y < height && x < width && i == c * (height * width) + (y * width + x)
  }
}
