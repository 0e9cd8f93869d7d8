/*
  The sprite component's pure pipeline (Scripts/MKPixelRotSprite.cs): copying a
  buffer, choosing the rotation path for an angle, and folding an angle back
  below 360 degrees. The component's Unity lifecycle, threads and the float
  rounding that produces the integer angle are outside this module.
*/
module PixelRotSprite {
  import opened Raster
  import opened TextureData
  import opened TextureUtilities

  // ---------------------------------------------------------------------------
  // GetCopy
  // ---------------------------------------------------------------------------

  /** A new buffer of the same size holding the same pixels. */
  method GetCopy(textureData: MKTextureData) returns (result: MKTextureData)
    requires textureData.Valid()
    ensures fresh(result) && fresh(result.Data) && result.Valid()
    ensures result.Width == textureData.Width && result.Height == textureData.Height
    ensures result.Value() == textureData.Value()
  {
    result := new MKTextureData(textureData.Width, textureData.Height);
    CopyElements(textureData, result);
  }

  // ---------------------------------------------------------------------------
  // GetRotate
  // ---------------------------------------------------------------------------

  /** The angles GetRotate serves by copying and quarter turns. */
  predicate IsRightAngle(angle: int) {
    angle == 0 || angle == 90 || angle == 180 || angle == 270 || angle == 360
  }

  /** Three Scale2x passes: the buffer the free rotation works on. */
  function Upscaled(img: Image): (r: Image)
    requires img.Valid()
    ensures r.Valid() && r.width == 8 * img.width && r.height == 8 * img.height
  {
    Scale2xImage(Scale2xImage(Scale2xImage(img)))
  }

  /** What GetRotate produces: a copy at 0 and 360, one, two or three quarter
      turns at 90, 180 and 270, and otherwise the upscaled buffer rotated by
      `sample` (the angle's inverse rotation) and scaled down to size × size. */
  function RotateSprite(img: Image, size: nat, angle: int, blend: real,
                        sample: (int, int) -> (int, int),
                        lerp: (Color32, Color32, real) -> Color32): (r: Image)
    requires img.Valid()
    requires angle == 90 || angle == 180 || angle == 270 ==> img.width == img.height
    ensures r.Valid()
    ensures IsRightAngle(angle) ==> r.width == img.width && r.height == img.height
    ensures !IsRightAngle(angle) ==> r.width == size && r.height == size
  {
    if angle == 0 || angle == 360 then img
    else if angle == 90 then Rotate90Image(img)
    else if angle == 180 then Rotate90Image(Rotate90Image(img))
    else if angle == 270 then Rotate90Image(Rotate90Image(Rotate90Image(img)))
    else ScaleDownImage(RotateImage(Upscaled(img), sample), size, size, blend, lerp)
  }

  /** The sprite for one angle, built on copies: the caller's buffer is only read
      (the method modifies nothing that existed before it was called). */
  method GetRotate(textureData: MKTextureData, size: nat, angle: int, blendDownScale: real,
                   sample: (int, int) -> (int, int),
                   lerp: (Color32, Color32, real) -> Color32) returns (result: MKTextureData)
    requires textureData.Valid()
    requires angle == 90 || angle == 180 || angle == 270 ==> textureData.Width == textureData.Height
    ensures fresh(result) && fresh(result.Data) && result.Valid()
    ensures result.Value() == RotateSprite(textureData.Value(), size, angle, blendDownScale, sample, lerp)
    ensures textureData.Value() == old(textureData.Value())
  {
    var skip := false;
    var data := textureData;
    if angle == 360 || angle == 0 {
      data := GetCopy(data);
      skip := true;
    } else if angle == 90 {
      data := GetCopy(data);
      Rotate90(data);
      skip := true;
    } else if angle == 180 {
      data := GetCopy(data);
      Rotate90(data);
      Rotate90(data);
      skip := true;
    } else if angle == 270 {
      data := GetCopy(data);
      Rotate90(data);
      Rotate90(data);
      Rotate90(data);
      skip := true;
    }

    if skip {
      return data;
    }

    data := Scale2x(data);
    data := Scale2x(data);
    data := Scale2x(data);
    Rotate(data, sample);
    data := ScaleDown(data, size, size, blendDownScale, lerp);
    return data;
  }

  /** At 0 and 360 the sprite is the input unchanged. */
  lemma RotateSpriteIdentity(img: Image, size: nat, blend: real, sample: (int, int) -> (int, int),
                             lerp: (Color32, Color32, real) -> Color32)
    requires img.Valid()
    ensures RotateSprite(img, size, 0, blend, sample, lerp) == img
    ensures RotateSprite(img, size, 360, blend, sample, lerp) == img
  {
  }

  /** On a square sprite, the 180-degree result taken through 180 degrees again
      is the original. */
  lemma HalfTurnTwice(img: Image, size: nat, blend: real, sample: (int, int) -> (int, int),
                      lerp: (Color32, Color32, real) -> Color32)
    requires img.Valid() && img.width == img.height
    ensures var half := RotateSprite(img, size, 180, blend, sample, lerp);
            RotateSprite(half, size, 180, blend, sample, lerp) == img
  {
    FourQuarterTurns(img);
  }

  /** On a square sprite, 90 degrees followed by 270 degrees (in either order)
      is the original. */
  lemma QuarterThenThreeQuarters(img: Image, size: nat, blend: real, sample: (int, int) -> (int, int),
                                 lerp: (Color32, Color32, real) -> Color32)
    requires img.Valid() && img.width == img.height
    ensures RotateSprite(RotateSprite(img, size, 90, blend, sample, lerp), size, 270, blend, sample, lerp) == img
    ensures RotateSprite(RotateSprite(img, size, 270, blend, sample, lerp), size, 90, blend, sample, lerp) == img
  {
    FourQuarterTurns(img);
  }

  /** At a right angle the sprite shows only colours of the input. */
  lemma RightAngleKeepsPalette(img: Image, size: nat, angle: int, blend: real,
                               sample: (int, int) -> (int, int),
                               lerp: (Color32, Color32, real) -> Color32, c: Color32)
    requires img.Valid() && IsRightAngle(angle)
    requires angle == 0 || angle == 360 || img.width == img.height
    requires c in RotateSprite(img, size, angle, blend, sample, lerp).data
    ensures c in img.data
  {
    if angle == 90 {
      Rotate90KeepsPalette(img, c);
    } else if angle == 180 {
      var r1 := Rotate90Image(img);
      Rotate90KeepsPalette(r1, c);
      Rotate90KeepsPalette(img, c);
    } else if angle == 270 {
      var r1 := Rotate90Image(img);
      var r2 := Rotate90Image(r1);
      Rotate90KeepsPalette(r2, c);
      Rotate90KeepsPalette(r1, c);
      Rotate90KeepsPalette(img, c);
    }
  }

  /** At any other angle, when the down-scale blend keeps its first colour (a
      blend factor of 0 with a linear interpolation), every pixel of the sprite
      is a colour of the input or Clear: the pipeline invents no colours. */
  lemma FreeAngleKeepsPalette(img: Image, size: nat, angle: int, blend: real,
                              sample: (int, int) -> (int, int),
                              lerp: (Color32, Color32, real) -> Color32, x: int, y: int)
    requires img.Valid() && !IsRightAngle(angle)
    requires forall a, b :: lerp(a, b, blend) == a
    requires 0 <= x < size && 0 <= y < size
    ensures var c := RotateSprite(img, size, angle, blend, sample, lerp).At(x, y);
            c == Clear || c in img.data
  {
    var s1 := Scale2xImage(img);
    var s2 := Scale2xImage(s1);
    var s3 := Scale2xImage(s2);
    var rotated := RotateImage(s3, sample);
    ScaleDownSamplesBlockStart(rotated, size, size, blend, lerp, x, y);
    var c := ScaleDownImage(rotated, size, size, blend, lerp).At(x, y);
    if c != Clear {
      assert c in rotated.data;
      RotateKeepsPalette(s3, sample, c);
      Scale2xKeepsPalette(s2, c);
      Scale2xKeepsPalette(s1, c);
      Scale2xKeepsPalette(img, c);
    }
  }

  // ---------------------------------------------------------------------------
  // CalculateAngle's wrap loop
  // ---------------------------------------------------------------------------

  /** The reference result of the wrap loop: subtract whole turns while the
      value exceeds 360. */
  function WrappedAngle(value: int): (r: int)
    ensures r <= 360
    ensures value <= 360 ==> r == value
    ensures value > 360 ==> 0 < r && (value - r) % 360 == 0
  {
    if value <= 360 then value else (value - 1) % 360 + 1
  }

  /** The integer part of CalculateAngle: the rounded angle is reduced by 360
      until it is at most 360. 360 stays 360 and negative values are left as
      they are. */
  method CalculateAngle(value: int) returns (r: int)
    ensures r == WrappedAngle(value)
  {
    r := value;
    while r > 360
      invariant (value - r) % 360 == 0
      invariant value <= 360 ==> r == value
      invariant value > 360 ==> 0 < r <= value
    {
      r := r - 360;
    }
  }

  /** The wrap loop's result is the only value at most 360, in (0, 360] when the
      input exceeds 360, that differs from the input by whole turns. */
  lemma WrappedAngleUnique(value: int, r: int)
    requires value > 360 && 0 < r <= 360 && (value - r) % 360 == 0
    ensures r == WrappedAngle(value)
  {
    var w := WrappedAngle(value);
    assert (r - w) % 360 == 0 by {
      assert r - w == (value - w) - (value - r);
    }
  }
}
