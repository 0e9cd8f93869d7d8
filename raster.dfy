/**
  Pixels, flat indexing and clamped access shared by the texture buffer and the
  transforms.

  `Color32` is Unity's RGBA8 colour. `GetIndex2D`, `GetUnsafe` and `Get` are the
  raw-array helpers of MKTextureUtilites (the buffer struct uses the same rule);
  the pure reads are stated over the array's contents, the writes are methods on
  the array. `Image` is the value of a buffer (its width, height and contents) on
  which every transform is specified.
*/
module Raster {

  type byte = x: int | 0 <= x < 256

  /** Unity's Color32: four 8-bit channels. */
  datatype Color32 = Color32(r: byte, g: byte, b: byte, a: byte)

  /** The value every freshly allocated `Color32[]` element holds. */
  const Clear: Color32 := Color32(0, 0, 0, 0)

  // ---------------------------------------------------------------------------
  // Mathf.Clamp on integers
  // ---------------------------------------------------------------------------

  /** Mathf.Clamp(value, min, max): the lower bound is tested first. */
  function Clamp(value: int, min: int, max: int): (r: int)
    ensures min <= max ==> min <= r <= max
    ensures min <= value <= max ==> r == value
    ensures value < min ==> r == min
    ensures min <= max < value ==> r == max
  {
    if value < min then min
    else if value > max then max
    else value
  }

  // ---------------------------------------------------------------------------
  // Arithmetic of the flat index x + y * width
  // ---------------------------------------------------------------------------

  lemma MulMonotone(a: int, b: int, c: int)
    requires 0 <= c && a <= b
    ensures a * c <= b * c
  {
    var d := b - a;
    assert b * c == a * c + d * c;
    assert d * c >= 0;
  }

  /** The quotient and remainder of x + y * w by w are y and x. */
  lemma IndexDivMod(x: int, y: int, w: int)
    requires 0 <= x < w
    ensures (x + y * w) / w == y && (x + y * w) % w == x
  {
    var n := x + y * w;
    var q, r := n / w, n % w;
    assert n == q * w + r && 0 <= r < w;
    assert (y - q) * w == r - x;
    if y - q >= 1 {
      MulMonotone(1, y - q, w);
    } else if y - q <= -1 {
      MulMonotone(y - q, -1, w);
    }
  }

  /** An in-range coordinate has a flat index below w * h. */
  lemma IndexBelow(x: int, y: int, w: int, h: int)
    requires 0 <= x < w && 0 <= y < h
    ensures 0 <= x + y * w < w * h
  {
    MulMonotone(0, y, w);
    MulMonotone(y, h - 1, w);
    assert (h - 1) * w == h * w - w;
  }

  /** Every flat index below w * h is the index of exactly one coordinate. */
  lemma FlatIndex(i: int, w: int, h: int)
    requires 0 <= w && 0 <= h && 0 <= i < w * h
    ensures w > 0 && 0 <= i % w < w && 0 <= i / w < h
    ensures GetIndex2D(i % w, i / w, w) == i
  {
    var q, r := i / w, i % w;
    assert i == q * w + r;
    if q < 0 {
      MulMonotone(q, -1, w);
    }
    if q >= h {
      MulMonotone(h, q, w);
    }
  }

  // ---------------------------------------------------------------------------
  // The raw-array helpers
  // ---------------------------------------------------------------------------

  /** The row-major flat index of (x, y); for 0 <= x < width and y >= 0 it
      determines x and y back, so distinct coordinates have distinct indices. */
  function GetIndex2D(x: int, y: int, width: int): (i: int)
    ensures 0 <= x < width && 0 <= y ==> 0 <= i && i % width == x && i / width == y
  {
    if 0 <= x < width && 0 <= y then
      IndexDivMod(x, y, width);
      MulMonotone(0, y, width);
      x + y * width
    else
      x + y * width
  }

  /** The unchecked read: defined whenever the flat index lies in the array. */
  function GetUnsafe(data: seq<Color32>, x: int, y: int, width: int): (c: Color32)
    requires 0 <= GetIndex2D(x, y, width) < |data|
    ensures c in data
  {
    data[GetIndex2D(x, y, width)]
  }

  /** The clamped read: x is clamped into [0, width - 1] and y into [0, height - 1]
      before indexing, so a buffer of at least one pixel is never read out of range. */
  function Get(data: seq<Color32>, x: int, y: int, width: int, height: int): (c: Color32)
    requires 0 <= GetIndex2D(Clamp(x, 0, width - 1), Clamp(y, 0, height - 1), width) < |data|
    ensures c in data
    ensures 0 <= x < width && 0 <= y < height ==> c == GetUnsafe(data, x, y, width)
  {
    data[GetIndex2D(Clamp(x, 0, width - 1), Clamp(y, 0, height - 1), width)]
  }

  /** The unchecked write of one element. */
  method SetUnsafe(data: array<Color32>, x: int, y: int, width: int, c: Color32)
    requires 0 <= GetIndex2D(x, y, width) < data.Length
    modifies data
    ensures data[..] == old(data[..])[GetIndex2D(x, y, width) := c]
  {
    data[GetIndex2D(x, y, width)] := c;
  }

  /** The clamped write of one element. */
  method Set(data: array<Color32>, x: int, y: int, width: int, height: int, c: Color32)
    requires 0 <= GetIndex2D(Clamp(x, 0, width - 1), Clamp(y, 0, height - 1), width) < data.Length
    modifies data
    ensures data[..] == old(data[..])[GetIndex2D(Clamp(x, 0, width - 1), Clamp(y, 0, height - 1), width) := c]
  {
    var cx := Clamp(x, 0, width - 1);
    var cy := Clamp(y, 0, height - 1);
    data[GetIndex2D(cx, cy, width)] := c;
  }

  // ---------------------------------------------------------------------------
  // The value of a buffer
  // ---------------------------------------------------------------------------

  /** A raster of `width` × `height` pixels stored row-major in `data`. */
  datatype Image = Image(width: nat, height: nat, data: seq<Color32>) {

    ghost predicate Valid() {
      |data| == width * height
    }

    predicate Contains(x: int, y: int) {
      0 <= x < width && 0 <= y < height
    }

    /** The pixel at an in-range coordinate. */
    function At(x: int, y: int): Color32
      requires Valid() && Contains(x, y)
    {
      IndexBelow(x, y, width, height);
      GetUnsafe(data, x, y, width)
    }

    /** The pixel at the clamped coordinate (the buffer's `Get`). */
    function Clamped(x: int, y: int): (c: Color32)
      requires Valid() && width >= 1 && height >= 1
      ensures Contains(x, y) ==> c == At(x, y)
    {
      IndexBelow(Clamp(x, 0, width - 1), Clamp(y, 0, height - 1), width, height);
      Get(data, x, y, width, height)
    }

    /** The image with the pixel at (x, y) replaced by c. */
    function Put(x: int, y: int, c: Color32): (r: Image)
      requires Valid() && Contains(x, y)
      ensures r.Valid() && r.width == width && r.height == height
    {
      IndexBelow(x, y, width, height);
      Image(width, height, data[GetIndex2D(x, y, width) := c])
    }
  }

  /** The clamped read returns a pixel of the image. */
  lemma ClampedIn(img: Image, x: int, y: int)
    requires img.Valid() && img.width >= 1 && img.height >= 1
    ensures img.Clamped(x, y) in img.data
  {
  }

  /** The clamped read is the read at the clamped coordinate. */
  lemma ClampedAt(img: Image, x: int, y: int)
    requires img.Valid() && img.width >= 1 && img.height >= 1
    ensures img.Contains(Clamp(x, 0, img.width - 1), Clamp(y, 0, img.height - 1))
    ensures img.Clamped(x, y) == img.At(Clamp(x, 0, img.width - 1), Clamp(y, 0, img.height - 1))
  {
  }

  /** Every element of a valid image is the pixel at some in-range coordinate. */
  lemma DataAt(img: Image, i: int)
    requires img.Valid() && 0 <= i < |img.data|
    ensures img.width > 0 && img.Contains(i % img.width, i / img.width)
    ensures img.At(i % img.width, i / img.width) == img.data[i]
  {
    FlatIndex(i, img.width, img.height);
  }

  /** Put changes the pixel at (x, y) and no other. */
  lemma PutAt(img: Image, x: int, y: int, c: Color32, X: int, Y: int)
    requires img.Valid() && img.Contains(x, y) && img.Contains(X, Y)
    ensures img.Put(x, y, c).At(X, Y) == if X == x && Y == y then c else img.At(X, Y)
  {
    IndexBelow(X, Y, img.width, img.height);
  }

  /** The image whose pixel at (x, y) is f(x, y) (FromFunctionAt). */
  function FromFunction(w: nat, h: nat, f: (int, int) -> Color32): (img: Image)
    ensures img.Valid() && img.width == w && img.height == h
  {
    Image(w, h, seq(w * h, i requires 0 <= i < w * h => FlatIndex(i, w, h); f(i % w, i / w)))
  }

  lemma FromFunctionAt(w: nat, h: nat, f: (int, int) -> Color32, x: int, y: int)
    requires 0 <= x < w && 0 <= y < h
    ensures FromFunction(w, h, f).At(x, y) == f(x, y)
  {
    IndexBelow(x, y, w, h);
  }

  /** Two images of the same size that agree at every coordinate are equal
      (pixel-for-pixel equality is value equality). */
  lemma ImageEquality(a: Image, b: Image)
    requires a.Valid() && b.Valid() && a.width == b.width && a.height == b.height
    requires forall x, y :: a.Contains(x, y) ==> a.At(x, y) == b.At(x, y)
    ensures a == b
  {
    forall i | 0 <= i < |a.data| ensures a.data[i] == b.data[i] {
      FlatIndex(i, a.width, a.height);
      assert a.At(i % a.width, i / a.width) == b.At(i % a.width, i / a.width);
    }
  }

  /** Writing the value a pixel already has changes nothing. */
  lemma PutSame(img: Image, x: int, y: int)
    requires img.Valid() && img.Contains(x, y)
    ensures img.Put(x, y, img.At(x, y)) == img
  {
    IndexBelow(x, y, img.width, img.height);
  }

  /** A second write to the same pixel replaces the first. */
  lemma PutTwice(img: Image, x: int, y: int, c: Color32, d: Color32)
    requires img.Valid() && img.Contains(x, y)
    ensures img.Put(x, y, c).Put(x, y, d) == img.Put(x, y, d)
  {
    IndexBelow(x, y, img.width, img.height);
  }

  // ---------------------------------------------------------------------------
  // Images filled pixel by pixel
  // ---------------------------------------------------------------------------

  /** The state of a buffer, allocated clear, after a column-major loop (x outer,
      y inner) has written f(x, y) at every coordinate before (a, b). */
  ghost predicate ColumnsDone(out: Image, f: (int, int) -> Color32, a: int, b: int)
    requires out.Valid()
  {
    forall X, Y :: out.Contains(X, Y) ==>
      out.At(X, Y) == if X < a || (X == a && Y < b) then f(X, Y) else Clear
  }

  lemma ColumnsStep(out: Image, f: (int, int) -> Color32, a: int, b: int)
    requires out.Valid() && out.Contains(a, b) && ColumnsDone(out, f, a, b)
    ensures ColumnsDone(out.Put(a, b, f(a, b)), f, a, b + 1)
  {
    forall X, Y | out.Contains(X, Y)
      ensures out.Put(a, b, f(a, b)).At(X, Y) == if X < a || (X == a && Y < b + 1) then f(X, Y) else Clear
    {
      PutAt(out, a, b, f(a, b), X, Y);
    }
  }

  /** Once every column is written the buffer is the image of f. */
  lemma ColumnsComplete(out: Image, f: (int, int) -> Color32)
    requires out.Valid() && ColumnsDone(out, f, out.width, 0)
    ensures out == FromFunction(out.width, out.height, f)
  {
    forall X, Y | out.Contains(X, Y) ensures out.At(X, Y) == FromFunction(out.width, out.height, f).At(X, Y) {
      FromFunctionAt(out.width, out.height, f, X, Y);
    }
    ImageEquality(out, FromFunction(out.width, out.height, f));
  }

  /** The same for a row-major loop (y outer, x inner). */
  ghost predicate RowsDone(out: Image, f: (int, int) -> Color32, a: int, b: int)
    requires out.Valid()
  {
    forall X, Y :: out.Contains(X, Y) ==>
      out.At(X, Y) == if Y < b || (Y == b && X < a) then f(X, Y) else Clear
  }

  lemma RowsStep(out: Image, f: (int, int) -> Color32, a: int, b: int)
    requires out.Valid() && out.Contains(a, b) && RowsDone(out, f, a, b)
    ensures RowsDone(out.Put(a, b, f(a, b)), f, a + 1, b)
  {
    forall X, Y | out.Contains(X, Y)
      ensures out.Put(a, b, f(a, b)).At(X, Y) == if Y < b || (Y == b && X < a + 1) then f(X, Y) else Clear
    {
      PutAt(out, a, b, f(a, b), X, Y);
    }
  }

  lemma RowsComplete(out: Image, f: (int, int) -> Color32)
    requires out.Valid() && RowsDone(out, f, 0, out.height)
    ensures out == FromFunction(out.width, out.height, f)
  {
    forall X, Y | out.Contains(X, Y) ensures out.At(X, Y) == FromFunction(out.width, out.height, f).At(X, Y) {
      FromFunctionAt(out.width, out.height, f, X, Y);
    }
    ImageEquality(out, FromFunction(out.width, out.height, f));
  }
}
