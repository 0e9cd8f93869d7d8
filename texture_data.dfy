/**
  MKTextureData: a flat Color32 raster with its width and height.

  The source type is a struct holding an array reference: copies of it share
  `Data`, so writes through one copy are seen through every other. Here it is a
  class whose three fields never change after construction; the elements of
  `Data` do.
*/
module TextureData {
  import opened Raster

  class MKTextureData {
    const Data: array<Color32>
    const Width: nat
    const Height: nat

    /** The buffer holds exactly one element per pixel. */
    ghost predicate Valid() {
      Data.Length == Width * Height
    }

    /** The number of elements of `Data`. */
    function Length(): (n: nat)
      ensures Valid() ==> n == Width * Height
    {
      Data.Length
    }

    /** The current contents as a value. */
    function Value(): (img: Image)
      reads Data
      ensures img.width == Width && img.height == Height && img.data == Data[..]
      ensures Valid() ==> img.Valid()
    {
      Image(Width, Height, Data[..])
    }

    /** A new buffer of w × h pixels, every one of them (0, 0, 0, 0). */
    constructor (w: nat, h: nat)
      ensures Width == w && Height == h && Valid()
      ensures fresh(Data)
      ensures forall i :: 0 <= i < Data.Length ==> Data[i] == Clear
    {
      Width := w;
      Height := h;
      Data := new Color32[w * h](_ => Clear);
    }

    /** x + y * Width; an in-range coordinate lands in [0, Width * Height) and
        is recovered from its index, so distinct coordinates never collide. */
    function GetIndex2D(x: int, y: int): (i: int)
      ensures 0 <= x < Width && 0 <= y < Height ==>
                0 <= i < Width * Height && i % Width == x && i / Width == y
    {
      if 0 <= x < Width && 0 <= y < Height then
        IndexBelow(x, y, Width, Height);
        Raster.GetIndex2D(x, y, Width)
      else
        Raster.GetIndex2D(x, y, Width)
    }

    /** The unchecked read. */
    function GetUnsafe(x: int, y: int): (c: Color32)
      reads Data
      requires 0 <= GetIndex2D(x, y) < Data.Length
      ensures c in Data[..]
    {
      Raster.GetUnsafe(Data[..], x, y, Width)
    }

    /** The clamped read: equals the unchecked read on in-range coordinates. */
    function Get(x: int, y: int): (c: Color32)
      reads Data
      requires Valid() && Width >= 1 && Height >= 1
      ensures c in Data[..]
      ensures 0 <= x < Width && 0 <= y < Height ==> c == GetUnsafe(x, y)
      ensures c == Value().Clamped(x, y)
    {
      IndexBelow(Clamp(x, 0, Width - 1), Clamp(y, 0, Height - 1), Width, Height);
      Raster.Get(Data[..], x, y, Width, Height)
    }

    /** The unchecked write: exactly the element at x + y * Width changes. */
    method SetUnsafe(x: int, y: int, c: Color32)
      requires 0 <= GetIndex2D(x, y) < Data.Length
      modifies Data
      ensures Data[..] == old(Data[..])[GetIndex2D(x, y) := c]
      ensures GetUnsafe(x, y) == c
      ensures Valid() && 0 <= x < Width && 0 <= y < Height ==> Value() == old(Value()).Put(x, y, c)
    {
      Raster.SetUnsafe(Data, x, y, Width, c);
    }

    /** The clamped write: exactly the element at the clamped coordinate changes. */
    method Set(x: int, y: int, c: Color32)
      requires Valid() && Width >= 1 && Height >= 1
      modifies Data
      ensures Data[..] == old(Data[..])[GetIndex2D(Clamp(x, 0, Width - 1), Clamp(y, 0, Height - 1)) := c]
      ensures Get(x, y) == c
      ensures Value() == old(Value()).Put(Clamp(x, 0, Width - 1), Clamp(y, 0, Height - 1), c)
    {
      IndexBelow(Clamp(x, 0, Width - 1), Clamp(y, 0, Height - 1), Width, Height);
      Raster.Set(Data, x, y, Width, Height, c);
    }
  }
}
