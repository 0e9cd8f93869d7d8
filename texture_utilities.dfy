/**
  The buffer transforms of MKTextureUtilites: trimming to the non-transparent
  bounding box, centring on a square canvas, Scale2x, exact quarter turns,
  inverse-sampled rotation, block downscaling and blitting a frame into a canvas.

  Each transform is a method over MKTextureData buffers, as in the source, and is
  specified by a function on `Image` values; the properties of the transforms are
  lemmas about those functions.
*/
module TextureUtilities {
  import opened Raster
  import opened TextureData

  // ---------------------------------------------------------------------------
  // Colour comparison
  // ---------------------------------------------------------------------------

  /** A Color32 channel widened to Color's float channel, c / 255. */
  function Channel(c: byte): real {
    c as real / 255.0
  }

  /** Mathf.Abs and Mathf.Max on floats. */
  function Absf(x: real): real {
    if x < 0.0 then -x else x
  }

  function Maxf(a: real, b: real): real {
    if a < b then b else a
  }

  /** Mathf.Epsilon, the smallest positive single-precision value. */
  const Epsilon: real := 1.401298e-45

  /** Mathf.Approximately: equal up to a relative tolerance of 1e-6. */
  predicate Approximately(a: real, b: real) {
    Absf(b - a) < Maxf(0.000001 * Maxf(Absf(a), Absf(b)), Epsilon * 8.0)
  }

  /** AreColorsSame: every channel, widened to float, is approximately equal. */
  predicate AreColorsSame(a: Color32, b: Color32) {
    && Approximately(Channel(a.r), Channel(b.r))
    && Approximately(Channel(a.g), Channel(b.g))
    && Approximately(Channel(a.b), Channel(b.b))
    && Approximately(Channel(a.a), Channel(b.a))
  }

  lemma ApproximatelyOnChannels(p: byte, q: byte)
    ensures Approximately(Channel(p), Channel(q)) <==> p == q
  {
    if p != q {
      assert Absf(Channel(q) - Channel(p)) >= 1.0 / 255.0;
      assert Maxf(Absf(Channel(p)), Absf(Channel(q))) <= 1.0;
    }
  }

  /** Channels widened from bytes are 1/255 apart or equal, far beyond the
      tolerance, so the float comparison is exact equality of Color32 values. */
  lemma AreColorsSameIsEquality(a: Color32, b: Color32)
    ensures AreColorsSame(a, b) <==> a == b
  {
    ApproximatelyOnChannels(a.r, b.r);
    ApproximatelyOnChannels(a.g, b.g);
    ApproximatelyOnChannels(a.b, b.b);
    ApproximatelyOnChannels(a.a, b.a);
  }

  // ---------------------------------------------------------------------------
  // Trim
  // ---------------------------------------------------------------------------

  /** Math.Min and Math.Max on ints. */
  function Min(a: int, b: int): int {
    if a < b then a else b
  }

  function Max(a: int, b: int): int {
    if a < b then b else a
  }

  /** A pixel Trim keeps: one whose alpha is not zero. */
  ghost predicate IsOpaque(img: Image, x: int, y: int)
    requires img.Valid()
  {
    img.Contains(x, y) && img.At(x, y).a != 0
  }

  ghost predicate HasOpaque(img: Image)
    requires img.Valid()
  {
    exists x, y :: IsOpaque(img, x, y)
  }

  /** [x0, x1] × [y0, y1] is the bounding box of the opaque pixels: every one of
      them lies inside it and each of its four edges touches one. */
  ghost predicate BoundingBox(img: Image, x0: int, y0: int, x1: int, y1: int)
    requires img.Valid()
  {
    && (forall x, y :: IsOpaque(img, x, y) ==> x0 <= x <= x1 && y0 <= y <= y1)
    && (exists y :: IsOpaque(img, x0, y))
    && (exists y :: IsOpaque(img, x1, y))
    && (exists x :: IsOpaque(img, x, y0))
    && (exists x :: IsOpaque(img, x, y1))
  }

  /** The pixels of img seen from (x0, y0), through the clamped access. */
  function CropCells(img: Image, x0: int, y0: int): (int, int) -> Color32
    requires img.Valid() && img.width >= 1 && img.height >= 1
  {
    (x, y) => img.Clamped(x0 + x, y0 + y)
  }

  /** The w × h window of img whose top-left pixel is (x0, y0). */
  function CropImage(img: Image, x0: int, y0: int, w: nat, h: nat): (r: Image)
    requires img.Valid() && img.width >= 1 && img.height >= 1
    ensures r.Valid() && r.width == w && r.height == h
  {
    FromFunction(w, h, CropCells(img, x0, y0))
  }

  /** The sizes on which Trim does not index an empty array: a buffer with no
      opaque pixel and neither side above 1 is copied through `Get`. */
  predicate TrimDefined(w: int, h: int) {
    w >= 2 || h >= 2 || (w == 1 && h == 1)
  }

  /** The accumulators of Trim's first loop nest once it has read every pixel of
      the columns before a and the first b pixels of column a: while nothing
      opaque was seen they keep their initial values, afterwards they bound every
      opaque pixel read so far and each is attained by one (the ghost witnesses). */
  ghost predicate TrimScanned(img: Image, a: int, b: int, found: bool,
                              minX: int, minY: int, maxX: int, maxY: int,
                              wy0: int, wy1: int, wx0: int, wx1: int)
    requires img.Valid()
  {
    && (found ==> IsOpaque(img, minX, wy0) && IsOpaque(img, maxX, wy1) &&
                  IsOpaque(img, wx0, minY) && IsOpaque(img, wx1, maxY))
    && (!found ==> minX == img.width - 1 && minY == img.height - 1 && maxX == 0 && maxY == 0)
    && (forall x, y :: IsOpaque(img, x, y) && (x < a || (x == a && y < b)) ==>
          found && minX <= x <= maxX && minY <= y <= maxY)
  }

  /** The first loop nest of Trim: the extremes of the opaque pixels' coordinates,
      scanning x outer and y inner from minX = W - 1, minY = H - 1, maxX = maxY = 0. */
  method OpaqueBounds(t: MKTextureData) returns (minX: int, minY: int, maxX: int, maxY: int)
    requires t.Valid()
    ensures HasOpaque(t.Value()) ==> BoundingBox(t.Value(), minX, minY, maxX, maxY)
    ensures !HasOpaque(t.Value()) ==>
              minX == t.Width - 1 && minY == t.Height - 1 && maxX == 0 && maxY == 0
  {
    ghost var img := t.Value();
    minX := t.Width - 1;
    minY := t.Height - 1;
    maxX := 0;
    maxY := 0;
    ghost var found := false;
    ghost var wy0, wy1, wx0, wx1 := 0, 0, 0, 0;

    var ix: int := 0;
    while ix < t.Width
      invariant 0 <= ix <= t.Width
      invariant TrimScanned(img, ix, 0, found, minX, minY, maxX, maxY, wy0, wy1, wx0, wx1)
    {
      var iy: int := 0;
      while iy < t.Height
        invariant 0 <= iy <= t.Height
        invariant TrimScanned(img, ix, iy, found, minX, minY, maxX, maxY, wy0, wy1, wx0, wx1)
      {
        var pixel := t.Get(ix, iy);
        if pixel.a != 0 {
          minX := Min(minX, ix);
          minY := Min(minY, iy);
          maxX := Max(maxX, ix);
          maxY := Max(maxY, iy);
          if minX == ix { wy0 := iy; }
          if maxX == ix { wy1 := iy; }
          if minY == iy { wx0 := ix; }
          if maxY == iy { wx1 := ix; }
          found := true;
        }
        iy := iy + 1;
      }
      ix := ix + 1;
    }
    assert HasOpaque(img) <==> found;
    if found {
      assert BoundingBox(img, minX, minY, maxX, maxY);
    }
  }

  /** The second loop nest of Trim: a new sizeX × sizeY buffer read from the
      input at (minX + ix, minY + iy) through the clamped access. */
  method CopyWindow(t: MKTextureData, minX: int, minY: int, sizeX: nat, sizeY: nat) returns (r: MKTextureData)
    requires t.Valid() && t.Width >= 1 && t.Height >= 1
    ensures fresh(r) && fresh(r.Data) && r.Valid()
    ensures r.Value() == CropImage(t.Value(), minX, minY, sizeX, sizeY)
  {
    ghost var img := t.Value();
    r := new MKTextureData(sizeX, sizeY);
    ghost var f := CropCells(img, minX, minY);
    assert ColumnsDone(r.Value(), f, 0, 0);

    var ix: int := 0;
    while ix < sizeX
      invariant 0 <= ix <= sizeX
      invariant fresh(r.Data) && r.Width == sizeX && r.Height == sizeY
      invariant r.Valid() && ColumnsDone(r.Value(), f, ix, 0)
    {
      var iy: int := 0;
      while iy < sizeY
        invariant 0 <= iy <= sizeY
        invariant r.Valid() && ColumnsDone(r.Value(), f, ix, iy)
      {
        var pixel := t.Get(minX + ix, minY + iy);
        ghost var before := r.Value();
        ghost var after := before.Put(ix, iy, f(ix, iy));
        ColumnsStep(before, f, ix, iy);
        assert ColumnsDone(after, f, ix, iy + 1);
        r.Set(ix, iy, pixel);
        assert r.Value() == after;
        iy := iy + 1;
      }
      ix := ix + 1;
    }
    ColumnsComplete(r.Value(), f);
  }

  /** Trim(textureData): the bounding box of the opaque pixels, copied into a new
      buffer; the input itself when there is none and the box comes out empty,
      which happens unless the input is a single pixel. */
  method Trim(t: MKTextureData) returns (r: MKTextureData)
    requires t.Valid() && TrimDefined(t.Width, t.Height)
    ensures HasOpaque(t.Value()) ==>
              fresh(r) && fresh(r.Data) && r.Valid() &&
              exists x0, y0, x1, y1 :: BoundingBox(t.Value(), x0, y0, x1, y1) &&
                                      r.Value() == CropImage(t.Value(), x0, y0, x1 - x0 + 1, y1 - y0 + 1)
    ensures !HasOpaque(t.Value()) && (t.Width >= 2 || t.Height >= 2) ==> r == t
    ensures !HasOpaque(t.Value()) && t.Width == 1 && t.Height == 1 ==>
              fresh(r) && fresh(r.Data) && r.Valid() && r.Value() == t.Value()
  {
    var minX, minY, maxX, maxY := OpaqueBounds(t);
    var sizeX := maxX - minX + 1;
    var sizeY := maxY - minY + 1;
    if sizeX < 1 || sizeY < 1 {
      return t;
    }
    if HasOpaque(t.Value()) {
      BoundingBoxInside(t.Value(), minX, minY, maxX, maxY);
    }
    r := CopyWindow(t, minX, minY, sizeX, sizeY);
    if !HasOpaque(t.Value()) {
      CropWhole(t.Value());
    }
  }

  /** A bounding box lies inside the image. */
  lemma BoundingBoxInside(img: Image, x0: int, y0: int, x1: int, y1: int)
    requires img.Valid() && BoundingBox(img, x0, y0, x1, y1)
    ensures 0 <= x0 <= x1 < img.width && 0 <= y0 <= y1 < img.height
  {
    var y :| IsOpaque(img, x0, y);
    var y' :| IsOpaque(img, x1, y');
    var x :| IsOpaque(img, x, y0);
    var x' :| IsOpaque(img, x', y1);
  }

  /** A 1 × 1 window at the origin of a 1 × 1 image is that image. */
  lemma CropWhole(img: Image)
    requires img.Valid() && img.width == 1 && img.height == 1
    ensures CropImage(img, 0, 0, 1, 1) == img
  {
    ImageEquality(CropImage(img, 0, 0, 1, 1), img);
  }

  /** Inside the image the window reads pixels unclamped. */
  lemma CropAt(img: Image, x0: int, y0: int, w: nat, h: nat, x: int, y: int)
    requires img.Valid() && img.width >= 1 && img.height >= 1
    requires 0 <= x < w && 0 <= y < h && img.Contains(x0 + x, y0 + y)
    ensures CropImage(img, x0, y0, w, h).At(x, y) == img.At(x0 + x, y0 + y)
  {
    FromFunctionAt(w, h, CropCells(img, x0, y0), x, y);
    assert CropCells(img, x0, y0)(x, y) == img.Clamped(x0 + x, y0 + y);
  }

  /** Trim loses no opaque pixel: each one appears in the trimmed buffer, shifted
      by the box's top-left corner. */
  lemma TrimKeepsOpaque(img: Image, x0: int, y0: int, x1: int, y1: int, x: int, y: int)
    requires img.Valid() && BoundingBox(img, x0, y0, x1, y1) && IsOpaque(img, x, y)
    ensures var r := CropImage(img, x0, y0, x1 - x0 + 1, y1 - y0 + 1);
            r.Contains(x - x0, y - y0) && r.At(x - x0, y - y0) == img.At(x, y)
  {
    CropAt(img, x0, y0, x1 - x0 + 1, y1 - y0 + 1, x - x0, y - y0);
  }

  /** The bounding box is unique, so Trim's result is determined by its input. */
  lemma BoundingBoxUnique(img: Image, x0: int, y0: int, x1: int, y1: int,
                          u0: int, v0: int, u1: int, v1: int)
    requires img.Valid() && BoundingBox(img, x0, y0, x1, y1) && BoundingBox(img, u0, v0, u1, v1)
    ensures x0 == u0 && y0 == v0 && x1 == u1 && y1 == v1
  {
    var a :| IsOpaque(img, x0, a);
    var b :| IsOpaque(img, u0, b);
    var c :| IsOpaque(img, x1, c);
    var d :| IsOpaque(img, u1, d);
    var e :| IsOpaque(img, e, y0);
    var f :| IsOpaque(img, f, v0);
    var g :| IsOpaque(img, g, y1);
    var k :| IsOpaque(img, k, v1);
  }

  /** An opaque pixel inside the window is opaque in the cropped image. */
  lemma CropOpaque(img: Image, x0: int, y0: int, w: nat, h: nat, X: int, Y: int)
    requires img.Valid() && x0 <= X < x0 + w && y0 <= Y < y0 + h && IsOpaque(img, X, Y)
    ensures IsOpaque(CropImage(img, x0, y0, w, h), X - x0, Y - y0)
  {
    CropAt(img, x0, y0, w, h, X - x0, Y - y0);
  }

  /** Trimming is idempotent: the trimmed buffer's own bounding box is all of it. */
  lemma TrimTight(img: Image, x0: int, y0: int, x1: int, y1: int)
    requires img.Valid() && BoundingBox(img, x0, y0, x1, y1)
    ensures var r := CropImage(img, x0, y0, x1 - x0 + 1, y1 - y0 + 1);
            BoundingBox(r, 0, 0, x1 - x0, y1 - y0)
  {
    BoundingBoxInside(img, x0, y0, x1, y1);
    var w, h := x1 - x0 + 1, y1 - y0 + 1;
    var r := CropImage(img, x0, y0, w, h);
    forall x, y | IsOpaque(r, x, y) ensures 0 <= x <= x1 - x0 && 0 <= y <= y1 - y0 {
    }
    var a :| IsOpaque(img, x0, a);
    CropOpaque(img, x0, y0, w, h, x0, a);
    var b :| IsOpaque(img, x1, b);
    CropOpaque(img, x0, y0, w, h, x1, b);
    var c :| IsOpaque(img, c, y0);
    CropOpaque(img, x0, y0, w, h, c, y0);
    var d :| IsOpaque(img, d, y1);
    CropOpaque(img, x0, y0, w, h, d, y1);
  }

  // ---------------------------------------------------------------------------
  // ResizeUpCanvas
  // ---------------------------------------------------------------------------

  /** newSize / 2 - size / 2: both operands are non-negative, so C#'s truncating
      division and Dafny's agree. */
  function CanvasOffset(newSize: nat, size: nat): int {
    newSize / 2 - size / 2
  }

  /** The clamped write of ResizeUpCanvas sends source coordinate s to canvas
      coordinate d. */
  predicate WritesTo(s: int, off: int, n: int, d: int) {
    Clamp(s + off, 0, n - 1) == d
  }

  /** The last of the source coordinates 0 .. k - 1 that the clamped write sends
      to canvas coordinate d, or -1 when none does. */
  function LastWriter(d: int, off: int, n: int, k: int): (s: int)
    ensures s == -1 || (0 <= s < k && WritesTo(s, off, n, d))
    ensures forall s' :: s < s' < k && 0 <= s' ==> !WritesTo(s', off, n, d)
    decreases k
  {
    if k <= 0 then -1
    else if WritesTo(k - 1, off, n, d) then k - 1
    else LastWriter(d, off, n, k - 1)
  }

  /** The canvas pixel (X, Y) after all writes: the last source pixel sent there,
      or the canvas's initial (0, 0, 0, 0). The writes run sX outer and sY inner,
      and the two coordinates are clamped independently, so the last write is the
      one from the last column and, within it, the last row. */
  function ResizeCell(img: Image, n: nat, X: int, Y: int): Color32
    requires img.Valid()
  {
    var sx := LastWriter(X, CanvasOffset(n, img.width), n, img.width);
    var sy := LastWriter(Y, CanvasOffset(n, img.height), n, img.height);
    if sx >= 0 && sy >= 0 then img.At(sx, sy) else Clear
  }

  function ResizeCells(img: Image, n: nat): (int, int) -> Color32
    requires img.Valid()
  {
    (X, Y) => ResizeCell(img, n, X, Y)
  }

  /** ResizeUpCanvas as a value: an n × n canvas. */
  function ResizeImage(img: Image, n: nat): (r: Image)
    requires img.Valid()
    ensures r.Valid() && r.width == n && r.height == n
  {
    FromFunction(n, n, ResizeCells(img, n))
  }

  /** The canvas pixel (X, Y) once the columns before a and the first b source
      pixels of column a have been written. */
  function ResizePartial(img: Image, n: nat, a: int, b: int, X: int, Y: int): Color32
    requires img.Valid()
  {
    var offX, offY := CanvasOffset(n, img.width), CanvasOffset(n, img.height);
    var sy := LastWriter(Y, offY, n, b);
    if 0 <= a < img.width && WritesTo(a, offX, n, X) && sy >= 0 && sy < img.height then
      img.At(a, sy)
    else
      var sx := LastWriter(X, offX, n, a);
      var syAll := LastWriter(Y, offY, n, img.height);
      if 0 <= sx < img.width && syAll >= 0 then img.At(sx, syAll) else Clear
  }

  ghost predicate ResizeDone(img: Image, n: nat, out: Image, a: int, b: int)
    requires img.Valid() && out.Valid()
  {
    forall X, Y :: out.Contains(X, Y) ==> out.At(X, Y) == ResizePartial(img, n, a, b, X, Y)
  }

  lemma ResizeStep(img: Image, n: nat, out: Image, a: int, b: int)
    requires img.Valid() && out.Valid() && out.width == n && out.height == n && n >= 1
    requires 0 <= a < img.width && 0 <= b < img.height && ResizeDone(img, n, out, a, b)
    ensures var dX := Clamp(a + CanvasOffset(n, img.width), 0, n - 1);
            var dY := Clamp(b + CanvasOffset(n, img.height), 0, n - 1);
            ResizeDone(img, n, out.Put(dX, dY, img.At(a, b)), a, b + 1)
  {
    var dX := Clamp(a + CanvasOffset(n, img.width), 0, n - 1);
    var dY := Clamp(b + CanvasOffset(n, img.height), 0, n - 1);
    forall X, Y | out.Contains(X, Y)
      ensures out.Put(dX, dY, img.At(a, b)).At(X, Y) == ResizePartial(img, n, a, b + 1, X, Y)
    {
      PutAt(out, dX, dY, img.At(a, b), X, Y);
    }
  }

  lemma ResizeNextColumn(img: Image, n: nat, out: Image, a: int)
    requires img.Valid() && out.Valid() && 0 <= a < img.width
    requires ResizeDone(img, n, out, a, img.height)
    ensures ResizeDone(img, n, out, a + 1, 0)
  {
  }

  lemma ResizeComplete(img: Image, n: nat, out: Image)
    requires img.Valid() && out.Valid() && out.width == n && out.height == n
    requires ResizeDone(img, n, out, img.width, 0)
    ensures out == ResizeImage(img, n)
  {
    forall X, Y | out.Contains(X, Y) ensures out.At(X, Y) == ResizeImage(img, n).At(X, Y) {
      FromFunctionAt(n, n, ResizeCells(img, n), X, Y);
    }
    ImageEquality(out, ResizeImage(img, n));
  }

  /** Before any write every canvas pixel is the initial (0, 0, 0, 0). */
  lemma ResizeStart(img: Image, n: nat, out: Image)
    requires img.Valid() && out.Valid() && forall i :: 0 <= i < |out.data| ==> out.data[i] == Clear
    ensures ResizeDone(img, n, out, 0, 0)
  {
  }

  /** The fixed setting of ResizeUpCanvas's loops: a square canvas that is not
      the input's array, and the centring offsets. */
  ghost predicate ResizeFrame(t: MKTextureData, r: MKTextureData, offsetX: int, offsetY: int) {
    && t.Valid() && r.Valid() && r.Width == r.Height && r.Data != t.Data
    && offsetX == CanvasOffset(r.Width, t.Width) && offsetY == CanvasOffset(r.Width, t.Height)
  }

  /** One write of ResizeUpCanvas: source pixel (sX, sY) through the clamped Set. */
  method ResizePixel(t: MKTextureData, r: MKTextureData, sX: int, sY: int, offsetX: int, offsetY: int)
    requires ResizeFrame(t, r, offsetX, offsetY) && r.Width >= 1
    requires 0 <= sX < t.Width && 0 <= sY < t.Height
    requires ResizeDone(t.Value(), r.Width, r.Value(), sX, sY)
    modifies r.Data
    ensures ResizeDone(t.Value(), r.Width, r.Value(), sX, sY + 1)
  {
    ghost var img := t.Value();
    var pixel := t.GetUnsafe(sX, sY);
    ghost var before := r.Value();
    ghost var after := before.Put(Clamp(sX + offsetX, 0, r.Width - 1), Clamp(sY + offsetY, 0, r.Height - 1),
                                  img.At(sX, sY));
    ResizeStep(img, r.Width, before, sX, sY);
    assert pixel == img.At(sX, sY);
    r.Set(sX + offsetX, sY + offsetY, pixel);
    assert r.Value() == after;
  }

  /** The inner loop of ResizeUpCanvas: column sX of the input written to the
      canvas through the clamped Set. */
  method ResizeColumn(t: MKTextureData, r: MKTextureData, sX: int, offsetX: int, offsetY: int)
    requires ResizeFrame(t, r, offsetX, offsetY)
    requires 0 <= sX < t.Width && (r.Width >= 1 || t.Height == 0)
    requires ResizeDone(t.Value(), r.Width, r.Value(), sX, 0)
    modifies r.Data
    ensures ResizeDone(t.Value(), r.Width, r.Value(), sX + 1, 0)
  {
    var sY: int := 0;
    while sY < t.Height
      invariant 0 <= sY <= t.Height
      invariant ResizeDone(t.Value(), r.Width, r.Value(), sX, sY)
    {
      ResizePixel(t, r, sX, sY, offsetX, offsetY);
      sY := sY + 1;
    }
    ResizeNextColumn(t.Value(), r.Width, r.Value(), sX);
  }

  /** The outer loop of ResizeUpCanvas: every column of the input, in order. */
  method ResizeColumns(t: MKTextureData, r: MKTextureData, offsetX: int, offsetY: int)
    requires ResizeFrame(t, r, offsetX, offsetY)
    requires r.Width >= 1 || t.Width == 0 || t.Height == 0
    requires ResizeDone(t.Value(), r.Width, r.Value(), 0, 0)
    modifies r.Data
    ensures ResizeDone(t.Value(), r.Width, r.Value(), t.Width, 0)
  {
    var sX: int := 0;
    while sX < t.Width
      invariant 0 <= sX <= t.Width
      invariant ResizeDone(t.Value(), r.Width, r.Value(), sX, 0)
    {
      ResizeColumn(t, r, sX, offsetX, offsetY);
      sX := sX + 1;
    }
  }

  /** ResizeUpCanvas(textureData, newSize): a new newSize × newSize buffer with
      the input centred on it, written through the clamped Set. */
  method ResizeUpCanvas(t: MKTextureData, newSize: nat) returns (r: MKTextureData)
    requires t.Valid() && (newSize >= 1 || t.Width == 0 || t.Height == 0)
    ensures fresh(r) && fresh(r.Data) && r.Valid()
    ensures r.Value() == ResizeImage(t.Value(), newSize)
  {
    ghost var img := t.Value();
    var offsetX := newSize / 2 - t.Width / 2;
    var offsetY := newSize / 2 - t.Height / 2;
    r := new MKTextureData(newSize, newSize);
    ResizeStart(img, newSize, r.Value());
    assert ResizeFrame(t, r, offsetX, offsetY);
    ResizeColumns(t, r, offsetX, offsetY);
    ResizeComplete(img, newSize, r.Value());
  }

  /** With no clamping at work, the last writer of d is the one source coordinate
      that lands on it. */
  lemma LastWriterUnclamped(d: int, off: int, n: int, k: int)
    requires 0 <= off && off + k <= n
    ensures LastWriter(d, off, n, k) == if off <= d < off + k then d - off else -1
  {
    var s := LastWriter(d, off, n, k);
    if off <= d < off + k {
      assert WritesTo(d - off, off, n, d);
    }
  }

  /** On a canvas at least as large as the input the centred window fits. */
  lemma CanvasOffsetFits(n: nat, size: nat)
    requires size <= n
    ensures 0 <= CanvasOffset(n, size) && CanvasOffset(n, size) + size <= n
  {
  }

  /** On a canvas at least as large as the input, source (sX, sY) lands at
      (sX + newSize / 2 - W / 2, sY + newSize / 2 - H / 2) and every other pixel
      stays (0, 0, 0, 0). */
  lemma ResizeCentered(img: Image, n: nat, X: int, Y: int)
    requires img.Valid() && img.width <= n && img.height <= n && 0 <= X < n && 0 <= Y < n
    ensures var offX, offY := CanvasOffset(n, img.width), CanvasOffset(n, img.height);
            && 0 <= offX && offX + img.width <= n && 0 <= offY && offY + img.height <= n
            && ResizeImage(img, n).At(X, Y) ==
                 if offX <= X < offX + img.width && offY <= Y < offY + img.height
                 then img.At(X - offX, Y - offY) else Clear
  {
    var offX, offY := CanvasOffset(n, img.width), CanvasOffset(n, img.height);
    CanvasOffsetFits(n, img.width);
    CanvasOffsetFits(n, img.height);
    LastWriterUnclamped(X, offX, n, img.width);
    LastWriterUnclamped(Y, offY, n, img.height);
    FromFunctionAt(n, n, ResizeCells(img, n), X, Y);
  }

  /** ResizeCentered inside the window: source (x, y) is found at its shifted place. */
  lemma ResizeCenteredInside(img: Image, n: nat, x: int, y: int)
    requires img.Valid() && img.width <= n && img.height <= n && img.Contains(x, y)
    ensures var offX, offY := CanvasOffset(n, img.width), CanvasOffset(n, img.height);
            && 0 <= offX + x < n && 0 <= offY + y < n
            && ResizeImage(img, n).At(offX + x, offY + y) == img.At(x, y)
  {
    var offX, offY := CanvasOffset(n, img.width), CanvasOffset(n, img.height);
    CanvasOffsetFits(n, img.width);
    CanvasOffsetFits(n, img.height);
    var X, Y := offX + x, offY + y;
    ResizeCentered(img, n, X, Y);
    assert X - offX == x && Y - offY == y;
  }

  /** ResizeThenCrop pixel by pixel. */
  lemma ResizeThenCropAt(img: Image, n: nat, x: int, y: int)
    requires img.Valid() && 1 <= img.width <= n && 1 <= img.height <= n && img.Contains(x, y)
    ensures CropImage(ResizeImage(img, n), CanvasOffset(n, img.width), CanvasOffset(n, img.height),
                      img.width, img.height).At(x, y) == img.At(x, y)
  {
    var offX, offY := CanvasOffset(n, img.width), CanvasOffset(n, img.height);
    var big := ResizeImage(img, n);
    var X, Y := offX + x, offY + y;
    CanvasOffsetFits(n, img.width);
    CanvasOffsetFits(n, img.height);
    LastWriterUnclamped(X, offX, n, img.width);
    LastWriterUnclamped(Y, offY, n, img.height);
    FromFunctionAt(n, n, ResizeCells(img, n), X, Y);
    FromFunctionAt(img.width, img.height, CropCells(big, offX, offY), x, y);
    assert big.Clamped(X, Y) == big.At(X, Y);
  }

  /** Centring and then cutting out the centred window gives the input back. */
  lemma ResizeThenCrop(img: Image, n: nat)
    requires img.Valid() && 1 <= img.width <= n && 1 <= img.height <= n
    ensures CropImage(ResizeImage(img, n), CanvasOffset(n, img.width), CanvasOffset(n, img.height),
                      img.width, img.height) == img
  {
    var c := CropImage(ResizeImage(img, n), CanvasOffset(n, img.width), CanvasOffset(n, img.height),
                       img.width, img.height);
    forall x, y | c.Contains(x, y) ensures c.At(x, y) == img.At(x, y) {
      ResizeThenCropAt(img, n, x, y);
    }
    ImageEquality(c, img);
  }

  /** Every canvas pixel is (0, 0, 0, 0) or a pixel of the input, whatever the
      sizes: the clamped write folds an oversized input onto the border. */
  lemma ResizePalette(img: Image, n: nat, X: int, Y: int)
    requires img.Valid() && 0 <= X < n && 0 <= Y < n
    ensures ResizeImage(img, n).At(X, Y) == Clear || ResizeImage(img, n).At(X, Y) in img.data
  {
    FromFunctionAt(n, n, ResizeCells(img, n), X, Y);
  }

  // ---------------------------------------------------------------------------
  // Scale2x
  // ---------------------------------------------------------------------------

  /** The 2×2 block of output pixels one source pixel expands to. */
  datatype Block = Block(topLeft: Color32, topRight: Color32, bottomLeft: Color32, bottomRight: Color32)

  /** The Scale2x rule for a source pixel E with B above, H below, D to the left
      and F to the right. Colours are compared with `==`, which
      AreColorsSameIsEquality shows is what the float comparison decides. */
  function Scale2xRule(b: Color32, h: Color32, d: Color32, f: Color32, e: Color32): Block {
    if b != h && d != f then
      Block(if d == b then d else e,
            if b == f then f else e,
            if d == h then d else e,
            if h == f then f else e)
    else
      Block(e, e, e, e)
  }

  /** The rule as the source writes it, with AreColorsSame, is the same rule. */
  lemma Scale2xRuleByAreColorsSame(b: Color32, h: Color32, d: Color32, f: Color32, e: Color32)
    ensures Scale2xRule(b, h, d, f, e) ==
            if !AreColorsSame(b, h) && !AreColorsSame(d, f) then
              Block(if AreColorsSame(d, b) then d else e,
                    if AreColorsSame(b, f) then f else e,
                    if AreColorsSame(d, h) then d else e,
                    if AreColorsSame(h, f) then f else e)
            else
              Block(e, e, e, e)
  {
    AreColorsSameIsEquality(b, h);
    AreColorsSameIsEquality(d, f);
    AreColorsSameIsEquality(d, b);
    AreColorsSameIsEquality(b, f);
    AreColorsSameIsEquality(d, h);
    AreColorsSameIsEquality(h, f);
  }

  /** The block of the source pixel at (x, y), its neighbours read through the
      clamped access. */
  function Scale2xBlock(img: Image, x: int, y: int): Block
    requires img.Valid() && img.width >= 1 && img.height >= 1
  {
    Scale2xRule(img.Clamped(x, y - 1), img.Clamped(x, y + 1), img.Clamped(x - 1, y),
                img.Clamped(x + 1, y), img.Clamped(x, y))
  }

  /** The output pixel (X, Y) of Scale2x: its quadrant of the block of (X / 2, Y / 2). */
  function Scale2xCell(img: Image, X: int, Y: int): Color32
    requires img.Valid() && 0 <= X < 2 * img.width && 0 <= Y < 2 * img.height
  {
    var blk := Scale2xBlock(img, X / 2, Y / 2);
    if Y % 2 == 0 then
      (if X % 2 == 0 then blk.topLeft else blk.topRight)
    else
      (if X % 2 == 0 then blk.bottomLeft else blk.bottomRight)
  }

  function Scale2xCells(img: Image): (int, int) -> Color32
    requires img.Valid()
  {
    (X, Y) => if 0 <= X < 2 * img.width && 0 <= Y < 2 * img.height then Scale2xCell(img, X, Y) else Clear
  }

  /** Scale2x as a value: twice the width and height, each pixel by the rule above. */
  function Scale2xImage(img: Image): (r: Image)
    requires img.Valid()
    ensures r.Valid() && r.width == 2 * img.width && r.height == 2 * img.height
  {
    FromFunction(2 * img.width, 2 * img.height, Scale2xCells(img))
  }

  lemma Scale2xImageAt(img: Image, X: int, Y: int)
    requires img.Valid() && 0 <= X < 2 * img.width && 0 <= Y < 2 * img.height
    ensures Scale2xImage(img).At(X, Y) == Scale2xCell(img, X, Y)
  {
    FromFunctionAt(2 * img.width, 2 * img.height, Scale2xCells(img), X, Y);
  }

  /** The image with the 2×2 block at (2x, 2y) replaced by blk. */
  function PutBlock(img: Image, x: int, y: int, blk: Block): (r: Image)
    requires img.Valid() && img.Contains(2 * x, 2 * y) && img.Contains(2 * x + 1, 2 * y + 1)
    ensures r.Valid() && r.width == img.width && r.height == img.height
  {
    img.Put(2 * x, 2 * y, blk.topLeft)
       .Put(2 * x + 1, 2 * y, blk.topRight)
       .Put(2 * x, 2 * y + 1, blk.bottomLeft)
       .Put(2 * x + 1, 2 * y + 1, blk.bottomRight)
  }

  /** The pixels of `out` Scale2x has written once it has processed every source
      pixel of the rows above y and the first x pixels of row y; the rest are clear. */
  ghost predicate Scale2xDone(img: Image, out: Image, x: int, y: int)
    requires img.Valid() && out.Valid() && out.width == 2 * img.width && out.height == 2 * img.height
  {
    forall X, Y :: out.Contains(X, Y) ==>
      out.At(X, Y) == if Y / 2 < y || (Y / 2 == y && X / 2 < x) then Scale2xCell(img, X, Y) else Clear
  }

  /** Pointwise form of Scale2xStep: the block's four pixels take their quadrant
      of the block, every other pixel keeps its value. */
  lemma PutBlockAt(img: Image, x: int, y: int, blk: Block, X: int, Y: int)
    requires img.Valid() && img.Contains(2 * x, 2 * y) && img.Contains(2 * x + 1, 2 * y + 1)
    requires img.Contains(X, Y)
    ensures PutBlock(img, x, y, blk).At(X, Y) ==
            if X / 2 == x && Y / 2 == y then
              (if Y % 2 == 0 then (if X % 2 == 0 then blk.topLeft else blk.topRight)
               else (if X % 2 == 0 then blk.bottomLeft else blk.bottomRight))
            else img.At(X, Y)
  {
    var s1 := img.Put(2 * x, 2 * y, blk.topLeft);
    var s2 := s1.Put(2 * x + 1, 2 * y, blk.topRight);
    var s3 := s2.Put(2 * x, 2 * y + 1, blk.bottomLeft);
    PutAt(img, 2 * x, 2 * y, blk.topLeft, X, Y);
    PutAt(s1, 2 * x + 1, 2 * y, blk.topRight, X, Y);
    PutAt(s2, 2 * x, 2 * y + 1, blk.bottomLeft, X, Y);
    PutAt(s3, 2 * x + 1, 2 * y + 1, blk.bottomRight, X, Y);
    Halves(X, x);
    Halves(Y, y);
    if X / 2 == x && Y / 2 == y {
      if X == 2 * x && Y == 2 * y {
        assert s1.At(X, Y) == blk.topLeft;
      } else if Y == 2 * y {
        assert s2.At(X, Y) == blk.topRight;
      } else if X == 2 * x {
        assert s3.At(X, Y) == blk.bottomLeft;
      }
    } else {
      assert s3.At(X, Y) == img.At(X, Y);
    }
  }

  /** X / 2 == x exactly for X in {2x, 2x + 1}, and X % 2 tells the two apart. */
  lemma Halves(X: int, x: int)
    ensures (X / 2 == x) == (X == 2 * x || X == 2 * x + 1)
    ensures X / 2 == x ==> ((X % 2 == 0) == (X == 2 * x))
  {
  }

  /** Writing the block of (x, y) extends the processed region by one source pixel. */
  lemma Scale2xStep(img: Image, out: Image, x: int, y: int)
    requires img.Valid() && out.Valid() && out.width == 2 * img.width && out.height == 2 * img.height
    requires 0 <= x < img.width && 0 <= y < img.height
    requires Scale2xDone(img, out, x, y)
    ensures Scale2xDone(img, PutBlock(out, x, y, Scale2xBlock(img, x, y)), x + 1, y)
  {
    var r := PutBlock(out, x, y, Scale2xBlock(img, x, y));
    forall X, Y | r.Contains(X, Y)
      ensures r.At(X, Y) == if Y / 2 < y || (Y / 2 == y && X / 2 < x + 1) then Scale2xCell(img, X, Y) else Clear
    {
      PutBlockAt(out, x, y, Scale2xBlock(img, x, y), X, Y);
    }
  }

  /** The four unchecked writes of the branch where the neighbours differ. */
  method WriteBlock(r: MKTextureData, x: int, y: int, blk: Block)
    requires r.Valid() && 0 <= 2 * x && 2 * x + 1 < r.Width && 0 <= 2 * y && 2 * y + 1 < r.Height
    modifies r.Data
    ensures r.Value() == PutBlock(old(r.Value()), x, y, blk)
  {
    ghost var s0 := r.Value();
    ghost var s1 := s0.Put(2 * x, 2 * y, blk.topLeft);
    ghost var s2 := s1.Put(2 * x + 1, 2 * y, blk.topRight);
    ghost var s3 := s2.Put(2 * x, 2 * y + 1, blk.bottomLeft);
    r.SetUnsafe(2 * x, 2 * y, blk.topLeft);
    assert r.Value() == s1;
    r.SetUnsafe(2 * x + 1, 2 * y, blk.topRight);
    assert r.Value() == s2;
    r.SetUnsafe(2 * x, 2 * y + 1, blk.bottomLeft);
    assert r.Value() == s3;
    assert PutBlock(s0, x, y, blk) == s3.Put(2 * x + 1, 2 * y + 1, blk.bottomRight);
    r.SetUnsafe(2 * x + 1, 2 * y + 1, blk.bottomRight);
    assert r.Value() == s3.Put(2 * x + 1, 2 * y + 1, blk.bottomRight);
  }

  /** The four clamped writes of E in the branch where the neighbours agree. */
  method WriteUniformBlock(r: MKTextureData, x: int, y: int, e: Color32)
    requires r.Valid() && 0 <= 2 * x && 2 * x + 1 < r.Width && 0 <= 2 * y && 2 * y + 1 < r.Height
    modifies r.Data
    ensures r.Value() == PutBlock(old(r.Value()), x, y, Block(e, e, e, e))
  {
    ghost var s0 := r.Value();
    ghost var s1 := s0.Put(2 * x, 2 * y, e);
    ghost var s2 := s1.Put(2 * x + 1, 2 * y, e);
    ghost var s3 := s2.Put(2 * x, 2 * y + 1, e);
    r.Set(2 * x, 2 * y, e);
    assert r.Value() == s1;
    r.Set(2 * x + 1, 2 * y, e);
    assert r.Value() == s2;
    r.Set(2 * x, 2 * y + 1, e);
    assert r.Value() == s3;
    assert PutBlock(s0, x, y, Block(e, e, e, e)) == s3.Put(2 * x + 1, 2 * y + 1, e);
    r.Set(2 * x + 1, 2 * y + 1, e);
    assert r.Value() == s3.Put(2 * x + 1, 2 * y + 1, e);
  }

  /** One step of Scale2x's inner loop: reads E and its four neighbours through the
      clamped access and writes the 2×2 block at (2x, 2y). */
  method Scale2xPixel(t: MKTextureData, r: MKTextureData, x: int, y: int)
    requires t.Valid() && r.Valid() && r.Width == 2 * t.Width && r.Height == 2 * t.Height
    requires 0 <= x < t.Width && 0 <= y < t.Height && r.Data != t.Data
    modifies r.Data
    ensures r.Value() == PutBlock(old(r.Value()), x, y, Scale2xBlock(t.Value(), x, y))
  {
    var colorB := t.Get(x, y - 1);
    var colorH := t.Get(x, y + 1);
    var colorD := t.Get(x - 1, y);
    var colorF := t.Get(x + 1, y);
    var colorE := t.Get(x, y);
    Scale2xRuleByAreColorsSame(colorB, colorH, colorD, colorF, colorE);
    ghost var img := t.Value();
    ghost var blk := Scale2xBlock(img, x, y);

    if !AreColorsSame(colorB, colorH) && !AreColorsSame(colorD, colorF) {
      var topLeft := if AreColorsSame(colorD, colorB) then colorD else colorE;
      var topRight := if AreColorsSame(colorB, colorF) then colorF else colorE;
      var bottomLeft := if AreColorsSame(colorD, colorH) then colorD else colorE;
      var bottomRight := if AreColorsSame(colorH, colorF) then colorF else colorE;
      assert blk == Block(topLeft, topRight, bottomLeft, bottomRight);
      WriteBlock(r, x, y, Block(topLeft, topRight, bottomLeft, bottomRight));
    } else {
      assert blk == Block(colorE, colorE, colorE, colorE);
      WriteUniformBlock(r, x, y, colorE);
    }
    assert t.Value() == img;
  }

  /** Scale2x(textureData): a new buffer of 2W × 2H pixels. */
  method Scale2x(t: MKTextureData) returns (r: MKTextureData)
    requires t.Valid()
    ensures fresh(r) && fresh(r.Data) && r.Valid()
    ensures r.Value() == Scale2xImage(t.Value())
  {
    var w := t.Width;
    var h := t.Height;
    var newW := w * 2;
    var newH := h * 2;
    r := new MKTextureData(newW, newH);
    ghost var img := t.Value();
    assert Scale2xDone(img, r.Value(), 0, 0);

    var y: int := 0;
    while y < h
      invariant 0 <= y <= h
      invariant fresh(r.Data) && r.Width == newW && r.Height == newH && r.Valid()
      invariant Scale2xDone(img, r.Value(), 0, y)
    {
      var x: int := 0;
      while x < w
        invariant 0 <= x <= w
        invariant fresh(r.Data) && r.Width == newW && r.Height == newH && r.Valid()
        invariant Scale2xDone(img, r.Value(), x, y)
      {
        Scale2xStep(img, r.Value(), x, y);
        Scale2xPixel(t, r, x, y);
        x := x + 1;
      }
      assert Scale2xDone(img, r.Value(), 0, y + 1);
      y := y + 1;
    }
    forall X, Y | r.Value().Contains(X, Y) ensures r.Value().At(X, Y) == Scale2xImage(img).At(X, Y) {
      Scale2xImageAt(img, X, Y);
    }
    ImageEquality(r.Value(), Scale2xImage(img));
  }

  /** A uniform input gives a uniform output of the same colour: every
      neighbour equals E, so the rule falls back to E everywhere. */
  lemma Scale2xUniform(img: Image, c: Color32, X: int, Y: int)
    requires img.Valid() && forall x, y :: img.Contains(x, y) ==> img.At(x, y) == c
    requires 0 <= X < 2 * img.width && 0 <= Y < 2 * img.height
    ensures Scale2xImage(img).At(X, Y) == c
  {
    Scale2xImageAt(img, X, Y);
    var x, y := X / 2, Y / 2;
    var d, f, e := img.Clamped(x - 1, y), img.Clamped(x + 1, y), img.Clamped(x, y);
    Scale2xRuleCopies(img.Clamped(x, y - 1), img.Clamped(x, y + 1), d, f, e);
    ClampedAt(img, x - 1, y);
    ClampedAt(img, x + 1, y);
    ClampedAt(img, x, y);
    assert d == c && f == c && e == c;
    var blk := Scale2xBlock(img, x, y);
    assert Scale2xCell(img, X, Y) in {blk.topLeft, blk.topRight, blk.bottomLeft, blk.bottomRight};
  }

  /** Every cell of a block is D, F or E. */
  lemma Scale2xRuleCopies(b: Color32, h: Color32, d: Color32, f: Color32, e: Color32)
    ensures var blk := Scale2xRule(b, h, d, f, e);
            && (blk.topLeft == d || blk.topLeft == e) && (blk.topRight == f || blk.topRight == e)
            && (blk.bottomLeft == d || blk.bottomLeft == e) && (blk.bottomRight == f || blk.bottomRight == e)
  {
  }

  /** Scale2x only copies colours: every output pixel is a pixel of the input. */
  lemma Scale2xPalette(img: Image, X: int, Y: int)
    requires img.Valid() && 0 <= X < 2 * img.width && 0 <= Y < 2 * img.height
    ensures Scale2xImage(img).At(X, Y) in img.data
  {
    Scale2xImageAt(img, X, Y);
    var x, y := X / 2, Y / 2;
    var d, f, e := img.Clamped(x - 1, y), img.Clamped(x + 1, y), img.Clamped(x, y);
    Scale2xRuleCopies(img.Clamped(x, y - 1), img.Clamped(x, y + 1), d, f, e);
    ClampedIn(img, x - 1, y);
    ClampedIn(img, x + 1, y);
    ClampedIn(img, x, y);
    var blk := Scale2xBlock(img, x, y);
    assert Scale2xCell(img, X, Y) in {blk.topLeft, blk.topRight, blk.bottomLeft, blk.bottomRight};
    assert blk.topLeft in img.data && blk.topRight in img.data;
    assert blk.bottomLeft in img.data && blk.bottomRight in img.data;
  }

  /** The same, over the whole contents: Scale2x adds no colour to the palette. */
  lemma Scale2xKeepsPalette(img: Image, c: Color32)
    requires img.Valid() && c in Scale2xImage(img).data
    ensures c in img.data
  {
    var out := Scale2xImage(img);
    var i :| 0 <= i < |out.data| && out.data[i] == c;
    DataAt(out, i);
    Scale2xPalette(img, i % out.width, i / out.width);
  }

  // ---------------------------------------------------------------------------
  // Copying a buffer's elements
  // ---------------------------------------------------------------------------

  /** The element-by-element copy loop `for i < Length: into.Data[i] = from.Data[i]`
      that ends Rotate and Rotate90 and makes up GetCopy. */
  method CopyElements(from: MKTextureData, into: MKTextureData)
    requires from.Data.Length == into.Data.Length && from.Data != into.Data
    modifies into.Data
    ensures into.Data[..] == from.Data[..]
  {
    var i := 0;
    while i < from.Length()
      invariant 0 <= i <= into.Data.Length
      invariant forall k :: 0 <= k < i ==> into.Data[k] == from.Data[k]
    {
      into.Data[i] := from.Data[i];
      i := i + 1;
    }
  }

  // ---------------------------------------------------------------------------
  // Rotate
  // ---------------------------------------------------------------------------

  /** Rotate's inverse sampling: output (x, y) takes the input pixel at
      sample(x, y) when that lies inside the input, else (0, 0, 0, 0). The map
      stands for the source's rounding of the rotation by -angle about the
      centre (W / 2, H / 2). */
  function RotateCell(img: Image, sample: (int, int) -> (int, int), x: int, y: int): Color32
    requires img.Valid()
  {
    var p := sample(x, y);
    if img.Contains(p.0, p.1) then img.At(p.0, p.1) else Clear
  }

  function RotateCells(img: Image, sample: (int, int) -> (int, int)): (int, int) -> Color32
    requires img.Valid()
  {
    (x, y) => RotateCell(img, sample, x, y)
  }

  /** Rotate as a value: same size as the input. */
  function RotateImage(img: Image, sample: (int, int) -> (int, int)): (r: Image)
    requires img.Valid()
    ensures r.Valid() && r.width == img.width && r.height == img.height
  {
    FromFunction(img.width, img.height, RotateCells(img, sample))
  }

  /** The inner loop of Rotate: row newY of the rotated buffer, each pixel
      cleared with Set and then, when the sampled point is inside, written with
      SetUnsafe. */
  method RotateRow(t: MKTextureData, transformed: MKTextureData, sample: (int, int) -> (int, int), newY: int)
    requires t.Valid() && transformed.Valid() && transformed.Data != t.Data
    requires transformed.Width == t.Width && transformed.Height == t.Height && 0 <= newY < t.Height
    requires RowsDone(transformed.Value(), RotateCells(t.Value(), sample), 0, newY)
    modifies transformed.Data
    ensures RowsDone(transformed.Value(), RotateCells(t.Value(), sample), 0, newY + 1)
  {
    ghost var img := t.Value();
    ghost var f := RotateCells(img, sample);
    var width := t.Width;
    var height := t.Height;
    var newX: int := 0;
    while newX < width
      invariant 0 <= newX <= width && t.Value() == img
      invariant RowsDone(transformed.Value(), f, newX, newY)
    {
      ghost var before := transformed.Value();
      ghost var after := before.Put(newX, newY, f(newX, newY));
      RowsStep(before, f, newX, newY);
      assert RowsDone(after, f, newX + 1, newY);
      transformed.Set(newX, newY, Color32(0, 0, 0, 0));
      PutTwice(before, newX, newY, Clear, f(newX, newY));
      var oldXY := sample(newX, newY);
      var oldX := oldXY.0;
      var oldY := oldXY.1;
      var insideImageBounds := oldX > -1 && oldX < width && oldY > -1 && oldY < height;
      if insideImageBounds {
        var pixel := t.GetUnsafe(oldX, oldY);
        transformed.SetUnsafe(newX, newY, pixel);
      }
      assert transformed.Value() == after;
      newX := newX + 1;
    }
  }

  /** Rotate(textureData, angle): rotates the buffer in place by inverse
      nearest-neighbour sampling into a fresh buffer that is then copied back. */
  method Rotate(t: MKTextureData, sample: (int, int) -> (int, int))
    requires t.Valid()
    modifies t.Data
    ensures t.Value() == RotateImage(old(t.Value()), sample)
  {
    ghost var img := t.Value();
    ghost var f := RotateCells(img, sample);
    var width := t.Width;
    var height := t.Height;
    var transformedPixels := new MKTextureData(t.Width, t.Height);
    assert RowsDone(transformedPixels.Value(), f, 0, 0);

    var newY: int := 0;
    while newY < height
      invariant 0 <= newY <= height && t.Value() == img
      invariant fresh(transformedPixels.Data) && transformedPixels.Valid()
      invariant transformedPixels.Width == width && transformedPixels.Height == height
      invariant RowsDone(transformedPixels.Value(), f, 0, newY)
    {
      RotateRow(t, transformedPixels, sample, newY);
      newY := newY + 1;
    }
    RowsComplete(transformedPixels.Value(), f);
    CopyElements(transformedPixels, t);
  }

  /** The identity sampling map leaves the buffer as it is. */
  lemma RotateIdentity(img: Image, sample: (int, int) -> (int, int))
    requires img.Valid() && forall x, y :: sample(x, y) == (x, y)
    ensures RotateImage(img, sample) == img
  {
    var r := RotateImage(img, sample);
    forall x, y | r.Contains(x, y) ensures r.At(x, y) == img.At(x, y) {
      FromFunctionAt(img.width, img.height, RotateCells(img, sample), x, y);
    }
    ImageEquality(r, img);
  }

  /** Rotation brings in no new colour: every pixel is (0, 0, 0, 0) or the input
      pixel at the sampled point. */
  lemma RotatePalette(img: Image, sample: (int, int) -> (int, int), x: int, y: int)
    requires img.Valid() && 0 <= x < img.width && 0 <= y < img.height
    ensures var c := RotateImage(img, sample).At(x, y);
            (c == Clear && !img.Contains(sample(x, y).0, sample(x, y).1)) ||
            (img.Contains(sample(x, y).0, sample(x, y).1) && c == img.At(sample(x, y).0, sample(x, y).1))
    ensures RotateImage(img, sample).At(x, y) == Clear || RotateImage(img, sample).At(x, y) in img.data
  {
    FromFunctionAt(img.width, img.height, RotateCells(img, sample), x, y);
  }

  /** Over the whole contents: a rotated buffer holds only colours of the source and Clear. */
  lemma RotateKeepsPalette(img: Image, sample: (int, int) -> (int, int), c: Color32)
    requires img.Valid() && c in RotateImage(img, sample).data
    ensures c == Clear || c in img.data
  {
    var out := RotateImage(img, sample);
    var i :| 0 <= i < |out.data| && out.data[i] == c;
    DataAt(out, i);
    RotatePalette(img, sample, i % out.width, i / out.width);
  }

  /** The inverse of the map Rotate90 writes, (x, y) -> (y, n - 1 - x), as a
      sampling map for Rotate. It is not what the trigonometry of Rotate computes
      at 90 degrees: there `width / 2` is n / 2, so on even n the sample is
      (y, n - x), one row apart. */
  function QuarterTurnSample(n: int): (int, int) -> (int, int) {
    (x, y) => (y, n - 1 - x)
  }

  // ---------------------------------------------------------------------------
  // Rotate90
  // ---------------------------------------------------------------------------

  /** The quarter turn of an n × n image: source (col, row) moves to
      (n - 1 - row, col), so output (X, Y) comes from (Y, n - 1 - X). */
  function Rotate90Cell(img: Image, X: int, Y: int): Color32
    requires img.Valid() && img.width == img.height
  {
    if img.Contains(Y, img.width - 1 - X) then img.At(Y, img.width - 1 - X) else Clear
  }

  function Rotate90Cells(img: Image): (int, int) -> Color32
    requires img.Valid() && img.width == img.height
  {
    (X, Y) => Rotate90Cell(img, X, Y)
  }

  /** Rotate90 as a value. */
  function Rotate90Image(img: Image): (r: Image)
    requires img.Valid() && img.width == img.height
    ensures r.Valid() && r.width == img.width && r.height == img.height
  {
    FromFunction(img.width, img.height, Rotate90Cells(img))
  }

  /** Rotate90 moves the pixel at (col, row) to (n - 1 - row, col). */
  lemma Rotate90At(img: Image, col: int, row: int)
    requires img.Valid() && img.width == img.height && img.Contains(col, row)
    ensures Rotate90Image(img).At(img.width - 1 - row, col) == img.At(col, row)
  {
    FromFunctionAt(img.width, img.height, Rotate90Cells(img), img.width - 1 - row, col);
  }

  /** The quarter-turn buffer once the source rows before row and the first col
      pixels of row have been written. */
  ghost predicate Rotate90Done(img: Image, out: Image, col: int, row: int)
    requires img.Valid() && img.width == img.height && out.Valid()
    requires out.width == img.width && out.height == img.height
  {
    forall X, Y :: out.Contains(X, Y) ==>
      out.At(X, Y) == if img.width - 1 - X < row || (img.width - 1 - X == row && Y < col)
                      then Rotate90Cell(img, X, Y) else Clear
  }

  lemma Rotate90Step(img: Image, out: Image, col: int, row: int)
    requires img.Valid() && img.width == img.height && out.Valid()
    requires out.width == img.width && out.height == img.height && img.Contains(col, row)
    requires Rotate90Done(img, out, col, row)
    ensures Rotate90Done(img, out.Put(img.height - (row + 1), col, img.At(col, row)), col + 1, row)
  {
    var r := out.Put(img.height - (row + 1), col, img.At(col, row));
    forall X, Y | r.Contains(X, Y)
      ensures r.At(X, Y) == if img.width - 1 - X < row || (img.width - 1 - X == row && Y < col + 1)
                            then Rotate90Cell(img, X, Y) else Clear
    {
      PutAt(out, img.height - (row + 1), col, img.At(col, row), X, Y);
    }
  }

  /** The inner loop of Rotate90: the pixels of source row `row`. */
  method Rotate90Row(t: MKTextureData, transformed: MKTextureData, row: int)
    requires t.Valid() && t.Width == t.Height && transformed.Valid() && transformed.Data != t.Data
    requires transformed.Width == t.Width && transformed.Height == t.Height && 0 <= row < t.Height
    requires Rotate90Done(t.Value(), transformed.Value(), 0, row)
    modifies transformed.Data
    ensures Rotate90Done(t.Value(), transformed.Value(), 0, row + 1)
  {
    ghost var img := t.Value();
    var width := t.Width;
    var height := t.Height;
    var col: int := 0;
    while col < width
      invariant 0 <= col <= width && t.Value() == img
      invariant Rotate90Done(img, transformed.Value(), col, row)
    {
      var newRow := col;
      var newCol := height - (row + 1);
      var pixel := t.GetUnsafe(col, row);
      ghost var before := transformed.Value();
      ghost var after := before.Put(newCol, newRow, img.At(col, row));
      Rotate90Step(img, before, col, row);
      assert Rotate90Done(img, after, col + 1, row);
      transformed.SetUnsafe(newCol, newRow, pixel);
      assert transformed.Value() == after;
      col := col + 1;
    }
    assert Rotate90Done(img, transformed.Value(), 0, row + 1);
  }

  /** Rotate90(textureData): a quarter turn of a square buffer, in place. */
  method Rotate90(t: MKTextureData)
    requires t.Valid() && t.Width == t.Height
    modifies t.Data
    ensures t.Value() == Rotate90Image(old(t.Value()))
  {
    ghost var img := t.Value();
    var width := t.Width;
    var height := t.Height;
    var transformedPixels := new MKTextureData(t.Width, t.Height);
    assert Rotate90Done(img, transformedPixels.Value(), 0, 0);

    var row: int := 0;
    while row < height
      invariant 0 <= row <= height && t.Value() == img
      invariant fresh(transformedPixels.Data) && transformedPixels.Valid()
      invariant transformedPixels.Width == width && transformedPixels.Height == height
      invariant Rotate90Done(img, transformedPixels.Value(), 0, row)
    {
      Rotate90Row(t, transformedPixels, row);
      row := row + 1;
    }
    assert ColumnsDone(transformedPixels.Value(), Rotate90Cells(img), width, 0);
    ColumnsComplete(transformedPixels.Value(), Rotate90Cells(img));
    CopyElements(transformedPixels, t);
  }

  /** Rotate90Image(img) pixel by pixel. */
  lemma Rotate90ImageAt(img: Image, X: int, Y: int)
    requires img.Valid() && img.width == img.height && 0 <= X < img.width && 0 <= Y < img.height
    ensures Rotate90Image(img).At(X, Y) == img.At(Y, img.width - 1 - X)
  {
    FromFunctionAt(img.width, img.height, Rotate90Cells(img), X, Y);
  }

  /** A quarter turn only moves pixels: every colour of the result is a colour of the source. */
  lemma Rotate90KeepsPalette(img: Image, c: Color32)
    requires img.Valid() && img.width == img.height && c in Rotate90Image(img).data
    ensures c in img.data
  {
    var out := Rotate90Image(img);
    var i :| 0 <= i < |out.data| && out.data[i] == c;
    DataAt(out, i);
    Rotate90ImageAt(img, i % out.width, i / out.width);
  }

  /** Two quarter turns are the half turn (X, Y) <- (n - 1 - X, n - 1 - Y). */
  lemma Rotate90TwiceAt(img: Image, X: int, Y: int)
    requires img.Valid() && img.width == img.height && 0 <= X < img.width && 0 <= Y < img.height
    ensures Rotate90Image(Rotate90Image(img)).At(X, Y) == img.At(img.width - 1 - X, img.width - 1 - Y)
  {
    Rotate90ImageAt(Rotate90Image(img), X, Y);
    Rotate90ImageAt(img, Y, img.width - 1 - X);
  }

  lemma FourQuarterTurnsAt(img: Image, X: int, Y: int)
    requires img.Valid() && img.width == img.height && 0 <= X < img.width && 0 <= Y < img.height
    ensures Rotate90Image(Rotate90Image(Rotate90Image(Rotate90Image(img)))).At(X, Y) == img.At(X, Y)
  {
    var n := img.width;
    var r1 := Rotate90Image(img);
    var r2 := Rotate90Image(r1);
    var r3 := Rotate90Image(r2);
    var r4 := Rotate90Image(r3);
    var X', Y' := n - 1 - X, n - 1 - Y;
    Rotate90ImageAt(r3, X, Y);
    assert r4.At(X, Y) == r3.At(Y, X');
    Rotate90ImageAt(r2, Y, X');
    assert r3.At(Y, X') == r2.At(X', Y');
    Rotate90ImageAt(r1, X', Y');
    assert n - 1 - X' == X;
    assert r2.At(X', Y') == r1.At(Y', X);
    Rotate90ImageAt(img, Y', X);
    assert n - 1 - Y' == Y;
    assert r1.At(Y', X) == img.At(X, Y);
  }

  /** Four quarter turns, or two half turns, restore the image. */
  lemma FourQuarterTurns(img: Image)
    requires img.Valid() && img.width == img.height
    ensures Rotate90Image(Rotate90Image(Rotate90Image(Rotate90Image(img)))) == img
  {
    var r := Rotate90Image(Rotate90Image(Rotate90Image(Rotate90Image(img))));
    forall X, Y | r.Contains(X, Y) ensures r.At(X, Y) == img.At(X, Y) {
      FourQuarterTurnsAt(img, X, Y);
    }
    ImageEquality(r, img);
  }

  /** Rotate through the quarter-turn sampling map is Rotate90: the two agree
      pixel for pixel on every square image. This relates two maps of the model;
      it says nothing about Rotate called with the angle 90. */
  lemma RotateByQuarterTurn(img: Image)
    requires img.Valid() && img.width == img.height
    ensures RotateImage(img, QuarterTurnSample(img.width)) == Rotate90Image(img)
  {
    var a := RotateImage(img, QuarterTurnSample(img.width));
    var b := Rotate90Image(img);
    forall X, Y | a.Contains(X, Y) ensures a.At(X, Y) == b.At(X, Y) {
      FromFunctionAt(img.width, img.height, RotateCells(img, QuarterTurnSample(img.width)), X, Y);
      FromFunctionAt(img.width, img.height, Rotate90Cells(img), X, Y);
    }
    ImageEquality(a, b);
  }

  // ---------------------------------------------------------------------------
  // ScaleDown
  // ---------------------------------------------------------------------------

  /** (int)(oldSize / (float)newSize): the quotient is exact or lies at least
      1 / newSize below the next integer, so below 2^24 its truncation is the
      integer quotient. When newSize is 0 no loop reads the step. */
  function Step(oldSize: nat, newSize: nat): nat {
    if newSize == 0 then 0 else oldSize / newSize
  }

  /** The pixel after the first k lerps of column ix of the block loop, which
      blends it towards the clamped reads (srcX + ix, srcY + iy), iy = 0 .. k - 1.
      `lerp` stands for Color.Lerp together with the conversions between
      Color32 and Color around it. */
  function BlendColumn(img: Image, lerp: (Color32, Color32, real) -> Color32, blend: real,
                       pixel: Color32, srcX: int, srcY: int, ix: int, k: int): Color32
    requires img.Valid() && img.width >= 1 && img.height >= 1
    decreases k
  {
    if k <= 0 then pixel
    else lerp(BlendColumn(img, lerp, blend, pixel, srcX, srcY, ix, k - 1),
              img.Clamped(srcX + ix, srcY + k - 1), blend)
  }

  /** The pixel after columns 0 .. kx - 1 of the block loop, each of stepY lerps. */
  function BlendBlock(img: Image, lerp: (Color32, Color32, real) -> Color32, blend: real,
                      pixel: Color32, srcX: int, srcY: int, stepY: int, kx: int): Color32
    requires img.Valid() && img.width >= 1 && img.height >= 1
    decreases kx
  {
    if kx <= 0 then pixel
    else BlendColumn(img, lerp, blend, BlendBlock(img, lerp, blend, pixel, srcX, srcY, stepY, kx - 1),
                     srcX, srcY, kx - 1, stepY)
  }

  /** ScaleDown's output pixel (x, y): the block starting at
      (stepX * x, stepY * y), sampled there and blended over stepX × stepY reads;
      (0, 0, 0, 0) when the block starts outside the input. */
  function ScaleDownCell(img: Image, newW: nat, newH: nat, blend: real,
                         lerp: (Color32, Color32, real) -> Color32, x: int, y: int): Color32
    requires img.Valid()
  {
    var stepX, stepY := Step(img.width, newW), Step(img.height, newH);
    var srcX, srcY := stepX * x, stepY * y;
    if srcX < 0 || srcY < 0 || srcX >= img.width || srcY >= img.height then Clear
    else BlendBlock(img, lerp, blend, img.At(srcX, srcY), srcX, srcY, stepY, stepX)
  }

  function ScaleDownCells(img: Image, newW: nat, newH: nat, blend: real,
                          lerp: (Color32, Color32, real) -> Color32): (int, int) -> Color32
    requires img.Valid()
  {
    (x, y) => ScaleDownCell(img, newW, newH, blend, lerp, x, y)
  }

  /** ScaleDown as a value: newW × newH. */
  function ScaleDownImage(img: Image, newW: nat, newH: nat, blend: real,
                          lerp: (Color32, Color32, real) -> Color32): (r: Image)
    requires img.Valid()
    ensures r.Valid() && r.width == newW && r.height == newH
  {
    FromFunction(newW, newH, ScaleDownCells(img, newW, newH, blend, lerp))
  }

  /** The block loop of ScaleDown for the block starting at (srcX, srcY): ix
      outer, iy inner, each step `pixel = Lerp(pixel, Get(srcX + ix, srcY + iy), blend)`. */
  method BlendPixel(t: MKTextureData, pixel0: Color32, srcX: int, srcY: int, stepX: int, stepY: int,
                    blend: real, lerp: (Color32, Color32, real) -> Color32) returns (pixel: Color32)
    requires t.Valid() && t.Width >= 1 && t.Height >= 1
    ensures pixel == BlendBlock(t.Value(), lerp, blend, pixel0, srcX, srcY, stepY, stepX)
  {
    ghost var img := t.Value();
    pixel := pixel0;
    var ix := 0;
    while ix < stepX
      invariant 0 <= ix <= Max(stepX, 0)
      invariant pixel == BlendBlock(img, lerp, blend, pixel0, srcX, srcY, stepY, ix)
    {
      ghost var start := pixel;
      var iy := 0;
      while iy < stepY
        invariant 0 <= iy <= Max(stepY, 0)
        invariant pixel == BlendColumn(img, lerp, blend, start, srcX, srcY, ix, iy)
      {
        pixel := lerp(pixel, t.Get(srcX + ix, srcY + iy), blend);
        iy := iy + 1;
      }
      assert pixel == BlendColumn(img, lerp, blend, start, srcX, srcY, ix, stepY);
      ix := ix + 1;
    }
  }

  /** The inner loop of ScaleDown: output column x. */
  method ScaleDownColumn(t: MKTextureData, r: MKTextureData, x: int, stepX: nat, stepY: nat,
                         blend: real, lerp: (Color32, Color32, real) -> Color32)
    requires t.Valid() && r.Valid() && r.Data != t.Data && 0 <= x < r.Width
    requires stepX == Step(t.Width, r.Width) && stepY == Step(t.Height, r.Height)
    requires ColumnsDone(r.Value(), ScaleDownCells(t.Value(), r.Width, r.Height, blend, lerp), x, 0)
    modifies r.Data
    ensures ColumnsDone(r.Value(), ScaleDownCells(t.Value(), r.Width, r.Height, blend, lerp), x + 1, 0)
  {
    ghost var img := t.Value();
    ghost var f := ScaleDownCells(img, r.Width, r.Height, blend, lerp);
    var oldWidth := t.Width;
    var oldHeight := t.Height;
    var y: int := 0;
    while y < r.Height
      invariant 0 <= y <= r.Height && t.Value() == img
      invariant ColumnsDone(r.Value(), f, x, y)
    {
      var srcX := stepX * x;
      var srcY := stepY * y;
      MulMonotone(0, x, stepX);
      MulMonotone(0, y, stepY);
      ghost var before := r.Value();
      ghost var after := before.Put(x, y, f(x, y));
      ColumnsStep(before, f, x, y);
      assert ColumnsDone(after, f, x, y + 1);
      if srcX >= oldWidth || srcY >= oldHeight {
        assert f(x, y) == Clear;
        PutSame(before, x, y);
      } else {
        var pixel := t.GetUnsafe(srcX, srcY);
        pixel := BlendPixel(t, pixel, srcX, srcY, stepX, stepY, blend, lerp);
        r.SetUnsafe(x, y, pixel);
      }
      assert r.Value() == after;
      y := y + 1;
    }
  }

  /** ScaleDown(textureData, newWidth, newHeight, blend): a new newWidth ×
      newHeight buffer, one block-start sample per output pixel, blended over the
      block. */
  method ScaleDown(t: MKTextureData, newWidth: nat, newHeight: nat, blend: real,
                   lerp: (Color32, Color32, real) -> Color32) returns (r: MKTextureData)
    requires t.Valid()
    ensures fresh(r) && fresh(r.Data) && r.Valid()
    ensures r.Value() == ScaleDownImage(t.Value(), newWidth, newHeight, blend, lerp)
  {
    ghost var img := t.Value();
    ghost var f := ScaleDownCells(img, newWidth, newHeight, blend, lerp);
    r := new MKTextureData(newWidth, newHeight);
    var oldWidth := t.Width;
    var oldHeight := t.Height;
    var stepX := Step(oldWidth, newWidth);
    var stepY := Step(oldHeight, newHeight);
    assert ColumnsDone(r.Value(), f, 0, 0);

    var x: int := 0;
    while x < newWidth
      invariant 0 <= x <= newWidth
      invariant fresh(r.Data) && r.Width == newWidth && r.Height == newHeight && r.Valid()
      invariant ColumnsDone(r.Value(), f, x, 0)
    {
      ScaleDownColumn(t, r, x, stepX, stepY, blend, lerp);
      x := x + 1;
    }
    ColumnsComplete(r.Value(), f);
  }

  /** With a lerp that keeps its first argument (Color.Lerp at blend 0), a column
      of lerps leaves the pixel as it was. */
  lemma {:induction false} BlendColumnKeeps(img: Image, lerp: (Color32, Color32, real) -> Color32, blend: real,
                                            pixel: Color32, srcX: int, srcY: int, ix: int, k: int)
    requires img.Valid() && img.width >= 1 && img.height >= 1
    requires forall a, b :: lerp(a, b, blend) == a
    ensures BlendColumn(img, lerp, blend, pixel, srcX, srcY, ix, k) == pixel
    decreases k
  {
    if k > 0 {
      BlendColumnKeeps(img, lerp, blend, pixel, srcX, srcY, ix, k - 1);
    }
  }

  lemma {:induction false} BlendBlockKeeps(img: Image, lerp: (Color32, Color32, real) -> Color32, blend: real,
                                           pixel: Color32, srcX: int, srcY: int, stepY: int, kx: int)
    requires img.Valid() && img.width >= 1 && img.height >= 1
    requires forall a, b :: lerp(a, b, blend) == a
    ensures BlendBlock(img, lerp, blend, pixel, srcX, srcY, stepY, kx) == pixel
    decreases kx
  {
    if kx > 0 {
      BlendBlockKeeps(img, lerp, blend, pixel, srcX, srcY, stepY, kx - 1);
      BlendColumnKeeps(img, lerp, blend, pixel, srcX, srcY, kx - 1, stepY);
    }
  }

  /** With blend 0 every output pixel is exactly the top-left sample of its
      block, (stepX * x, stepY * y), or (0, 0, 0, 0) when that lies outside. */
  lemma ScaleDownSamplesBlockStart(img: Image, newW: nat, newH: nat, blend: real,
                                   lerp: (Color32, Color32, real) -> Color32, x: int, y: int)
    requires img.Valid() && 0 <= x < newW && 0 <= y < newH
    requires forall a, b :: lerp(a, b, blend) == a
    ensures var srcX, srcY := Step(img.width, newW) * x, Step(img.height, newH) * y;
            ScaleDownImage(img, newW, newH, blend, lerp).At(x, y) ==
              if img.Contains(srcX, srcY) then img.At(srcX, srcY) else Clear
  {
    var srcX, srcY := Step(img.width, newW) * x, Step(img.height, newH) * y;
    FromFunctionAt(newW, newH, ScaleDownCells(img, newW, newH, blend, lerp), x, y);
    if img.Contains(srcX, srcY) {
      BlendBlockKeeps(img, lerp, blend, img.At(srcX, srcY), srcX, srcY,
                      Step(img.height, newH), Step(img.width, newW));
    }
  }

  /** The skip `srcX >= oldWidth` is taken only on an empty input: every block
      of a non-empty input starts inside it. */
  lemma ScaleDownBlocksInside(oldSize: nat, newSize: nat, k: int)
    requires 0 <= k < newSize && oldSize >= 1
    ensures 0 <= Step(oldSize, newSize) * k < oldSize
  {
    var q := Step(oldSize, newSize);
    MulMonotone(k, newSize - 1, q);
    MulMonotone(0, k, q);
    assert q * newSize <= oldSize;
  }

  // ---------------------------------------------------------------------------
  // InsertToTexture
  // ---------------------------------------------------------------------------

  /** The frame lies inside the canvas at (xOffset, yOffset); an empty frame
      writes nothing and fits anywhere. */
  predicate FrameFits(canvasW: int, canvasH: int, frameW: int, frameH: int, xOffset: int, yOffset: int) {
    frameW == 0 || frameH == 0 ||
    (0 <= xOffset && xOffset + frameW <= canvasW && 0 <= yOffset && yOffset + frameH <= canvasH)
  }

  /** InsertToTexture as a value: the canvas with the frame's pixels over the
      window at (xOffset, yOffset). */
  function InsertCell(canvas: Image, frame: Image, xOffset: int, yOffset: int, X: int, Y: int): Color32
    requires canvas.Valid() && frame.Valid()
  {
    if frame.Contains(X - xOffset, Y - yOffset) then frame.At(X - xOffset, Y - yOffset)
    else if canvas.Contains(X, Y) then canvas.At(X, Y)
    else Clear
  }

  function InsertCells(canvas: Image, frame: Image, xOffset: int, yOffset: int): (int, int) -> Color32
    requires canvas.Valid() && frame.Valid()
  {
    (X, Y) => InsertCell(canvas, frame, xOffset, yOffset, X, Y)
  }

  function InsertImage(canvas: Image, frame: Image, xOffset: int, yOffset: int): (r: Image)
    requires canvas.Valid() && frame.Valid()
    ensures r.Valid() && r.width == canvas.width && r.height == canvas.height
  {
    FromFunction(canvas.width, canvas.height, InsertCells(canvas, frame, xOffset, yOffset))
  }

  /** The canvas once frame columns before i and the first j pixels of column i
      have been written. */
  ghost predicate InsertDone(canvas0: Image, frame: Image, xOffset: int, yOffset: int, out: Image, i: int, j: int)
    requires canvas0.Valid() && frame.Valid() && out.Valid()
    requires out.width == canvas0.width && out.height == canvas0.height
  {
    forall X, Y :: out.Contains(X, Y) ==>
      out.At(X, Y) == if frame.Contains(X - xOffset, Y - yOffset) &&
                         (X - xOffset < i || (X - xOffset == i && Y - yOffset < j))
                      then frame.At(X - xOffset, Y - yOffset) else canvas0.At(X, Y)
  }

  lemma InsertStep(canvas0: Image, frame: Image, xOffset: int, yOffset: int, out: Image, i: int, j: int)
    requires canvas0.Valid() && frame.Valid() && out.Valid()
    requires out.width == canvas0.width && out.height == canvas0.height
    requires frame.Contains(i, j) && out.Contains(i + xOffset, j + yOffset)
    requires InsertDone(canvas0, frame, xOffset, yOffset, out, i, j)
    ensures InsertDone(canvas0, frame, xOffset, yOffset, out.Put(i + xOffset, j + yOffset, frame.At(i, j)), i, j + 1)
  {
    var r := out.Put(i + xOffset, j + yOffset, frame.At(i, j));
    forall X, Y | r.Contains(X, Y)
      ensures r.At(X, Y) == if frame.Contains(X - xOffset, Y - yOffset) &&
                               (X - xOffset < i || (X - xOffset == i && Y - yOffset < j + 1))
                            then frame.At(X - xOffset, Y - yOffset) else canvas0.At(X, Y)
    {
      PutAt(out, i + xOffset, j + yOffset, frame.At(i, j), X, Y);
    }
  }

  /** The inner loop of InsertToTexture: frame column i. */
  method InsertColumn(canvas: MKTextureData, textureData: MKTextureData, xOffset: int, yOffset: int,
                      i: int, ghost canvas0: Image)
    requires canvas.Valid() && textureData.Valid() && canvas.Data != textureData.Data
    requires canvas0.Valid() && canvas0.width == canvas.Width && canvas0.height == canvas.Height
    requires 0 <= i < textureData.Width
    requires FrameFits(canvas.Width, canvas.Height, textureData.Width, textureData.Height, xOffset, yOffset)
    requires InsertDone(canvas0, textureData.Value(), xOffset, yOffset, canvas.Value(), i, 0)
    modifies canvas.Data
    ensures InsertDone(canvas0, textureData.Value(), xOffset, yOffset, canvas.Value(), i + 1, 0)
  {
    ghost var frame := textureData.Value();
    var j: int := 0;
    while j < textureData.Height
      invariant 0 <= j <= textureData.Height && textureData.Value() == frame
      invariant InsertDone(canvas0, frame, xOffset, yOffset, canvas.Value(), i, j)
    {
      var pixel := textureData.GetUnsafe(i, j);
      ghost var before := canvas.Value();
      ghost var after := before.Put(i + xOffset, j + yOffset, frame.At(i, j));
      InsertStep(canvas0, frame, xOffset, yOffset, before, i, j);
      assert InsertDone(canvas0, frame, xOffset, yOffset, after, i, j + 1);
      canvas.SetUnsafe(i + xOffset, j + yOffset, pixel);
      assert canvas.Value() == after;
      j := j + 1;
    }
    assert InsertDone(canvas0, frame, xOffset, yOffset, canvas.Value(), i + 1, 0);
  }

  /** InsertToTexture(canvas, textureData, xOffset, yOffset): blits the frame
      into the canvas in place with unchecked writes. */
  method InsertToTexture(canvas: MKTextureData, textureData: MKTextureData, xOffset: int, yOffset: int)
    requires canvas.Valid() && textureData.Valid() && canvas.Data != textureData.Data
    requires FrameFits(canvas.Width, canvas.Height, textureData.Width, textureData.Height, xOffset, yOffset)
    modifies canvas.Data
    ensures canvas.Value() == InsertImage(old(canvas.Value()), textureData.Value(), xOffset, yOffset)
    ensures textureData.Value() == old(textureData.Value())
  {
    ghost var canvas0 := canvas.Value();
    ghost var frame := textureData.Value();
    assert InsertDone(canvas0, frame, xOffset, yOffset, canvas.Value(), 0, 0);
    var i: int := 0;
    while i < textureData.Width
      invariant 0 <= i <= textureData.Width && textureData.Value() == frame
      invariant InsertDone(canvas0, frame, xOffset, yOffset, canvas.Value(), i, 0)
    {
      InsertColumn(canvas, textureData, xOffset, yOffset, i, canvas0);
      i := i + 1;
    }
    InsertComplete(canvas0, frame, xOffset, yOffset, canvas.Value());
  }

  lemma InsertComplete(canvas0: Image, frame: Image, xOffset: int, yOffset: int, out: Image)
    requires canvas0.Valid() && frame.Valid() && out.Valid()
    requires out.width == canvas0.width && out.height == canvas0.height
    requires InsertDone(canvas0, frame, xOffset, yOffset, out, frame.width, 0)
    ensures out == InsertImage(canvas0, frame, xOffset, yOffset)
  {
    var r := InsertImage(canvas0, frame, xOffset, yOffset);
    forall X, Y | out.Contains(X, Y) ensures out.At(X, Y) == r.At(X, Y) {
      FromFunctionAt(canvas0.width, canvas0.height, InsertCells(canvas0, frame, xOffset, yOffset), X, Y);
    }
    ImageEquality(out, r);
  }

  /** Inside the window the canvas shows the frame, outside it is unchanged. */
  lemma InsertAt(canvas: Image, frame: Image, xOffset: int, yOffset: int, X: int, Y: int)
    requires canvas.Valid() && frame.Valid() && canvas.Contains(X, Y)
    ensures InsertImage(canvas, frame, xOffset, yOffset).At(X, Y) ==
            if frame.Contains(X - xOffset, Y - yOffset) then frame.At(X - xOffset, Y - yOffset)
            else canvas.At(X, Y)
  {
    FromFunctionAt(canvas.width, canvas.height, InsertCells(canvas, frame, xOffset, yOffset), X, Y);
  }

  /** Cutting the window back out of the canvas gives the frame. */
  lemma InsertThenCrop(canvas: Image, frame: Image, xOffset: int, yOffset: int)
    requires canvas.Valid() && frame.Valid() && frame.width >= 1 && frame.height >= 1
    requires FrameFits(canvas.width, canvas.height, frame.width, frame.height, xOffset, yOffset)
    ensures CropImage(InsertImage(canvas, frame, xOffset, yOffset), xOffset, yOffset,
                      frame.width, frame.height) == frame
  {
    var big := InsertImage(canvas, frame, xOffset, yOffset);
    var c := CropImage(big, xOffset, yOffset, frame.width, frame.height);
    forall x, y | c.Contains(x, y) ensures c.At(x, y) == frame.At(x, y) {
      InsertAt(canvas, frame, xOffset, yOffset, xOffset + x, yOffset + y);
      CropAt(big, xOffset, yOffset, frame.width, frame.height, x, y);
    }
    ImageEquality(c, frame);
  }
}
