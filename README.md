# MKPixelRot pixel pipeline in Dafny

MKPixelRot rotates pixel-art sprites without smearing them. It works on a flat
RGBA8 raster, `MKTextureData`, which holds a `Color32[]` array together with the
raster's width and height. Pixel (x, y) lives at index `x + y * Width`. Reads
through `Get` and writes through `Set` clamp the coordinate into the raster;
`GetUnsafe` and `SetUnsafe` do not.

`MKTextureUtilites` has the transforms:

- `Trim` cuts a raster down to the bounding box of its non-transparent pixels.
- `ResizeUpCanvas` centres a raster on a larger square canvas.
- `Scale2x` doubles both dimensions with the Scale2x edge rule.
- `Rotate` resamples a raster through an inverse rotation, in place.
- `Rotate90` turns a square raster by a quarter turn, in place.
- `ScaleDown` block-samples and blends a raster down to a smaller size.
- `InsertToTexture` pastes a frame into a sheet.

The sprite component (`MKPixelRotSprite`) builds one rotated frame with
`GetRotate`:

- at 0 and 360 degrees it returns a copy;
- at 90, 180 and 270 degrees it returns a copy turned by one, two or three quarter turns;
- at any other angle it runs three `Scale2x` passes, the free rotation and a `ScaleDown` back to the target size.

`CalculateAngle` folds a rounded angle back to at most 360.

The model has four modules:

- `Raster` (raster.dfy) defines the pixel type, `Mathf.Clamp`, the raw-array helpers and the `Image` value. An `Image` is a (width, height, contents) triple, and every transform is specified as a function on it.
- `TextureData` (texture_data.dfy) defines `MKTextureData` as a class. Its array, width and height are fixed references. `Set` and `SetUnsafe` update the array in place.
- `TextureUtilities` (texture_utilities.dfy) follows the source's loops. Its methods are proved equal to `Image` functions, and lemmas state what those functions mean.
- `PixelRotSprite` (pixel_rot_sprite.dfy) defines `GetCopy`, `GetRotate` and the wrap loop of `CalculateAngle`.

Inputs the model abstracts:

- The trigonometry of `Rotate` is the parameter `sample`. It maps an output coordinate to the source coordinate it reads, as the `(int)` casts of lines 220-221 do.
- `Color.Lerp` in `ScaleDown` is the parameter `lerp`.
- `_blendDownScale` is a parameter of `GetRotate`.
- The target size is a parameter of `GetRotate`.

Two decisions about how the source is read:

- `AreColorsSame` compares the four channels with `Mathf.Approximately`, after converting each byte to a float in [0, 1]. The model keeps that comparison on reals and proves it is equality on `Color32`, so the Scale2x rule is stated with `==`. Scale2x also reads its neighbours into `Color` locals and writes them back through the implicit `Color` to `Color32` conversion (lines 172-192). The model keeps the `Color32` unchanged and does not model that round trip. The round trip is exact: the conversion rounds to the nearest byte, and b / 255 scaled back by 255 rounds to b for every byte b.
- The .NET runtime puts an index check on every array access. Each operation requires what keeps its accesses in range, or what every call site guarantees. The "## Left out" lines below name each such requirement. Where the source returns early instead, the model follows that path.

## Model

| member | source | states |
|---|---|---|
| Raster.Clamp | Assets/MaximovInk/MKPixelRot/MKTextureData.cs:27-28 | Mathf.Clamp tests the lower bound first: the result is `min` below it, `max` above `max`, the value itself in between, and inside [min, max] whenever min <= max |
| Raster.GetIndex2D | Assets/MaximovInk/MKPixelRot/MKTextureUtilites.cs:321-325 | for 0 <= x < width and y >= 0 the index is non-negative, and x and y are recovered from it as index % width and index / width, so distinct coordinates never share an index |
| Raster.IndexBelow | Assets/MaximovInk/MKPixelRot/MKTextureUtilites.cs:321-325 | an in-range coordinate's index lies in [0, width * height) |
| Raster.FlatIndex | Assets/MaximovInk/MKPixelRot/MKTextureUtilites.cs:321-325 | every index below width * height is the index of exactly one in-range coordinate, so the indexing is a bijection |
| Raster.GetUnsafe | Assets/MaximovInk/MKPixelRot/MKTextureUtilites.cs:327-331 | the unchecked read, defined when the flat index is inside the array, returns an element of the array |
| Raster.Get | Assets/MaximovInk/MKPixelRot/MKTextureUtilites.cs:333-341 | the clamped read returns an element of the array and agrees with GetUnsafe on in-range coordinates |
| Raster.SetUnsafe | Assets/MaximovInk/MKPixelRot/MKTextureUtilites.cs:343-347 | the array afterwards is the old array with exactly the element at x + y * width replaced |
| Raster.Set | Assets/MaximovInk/MKPixelRot/MKTextureUtilites.cs:349-356 | the array afterwards is the old array with exactly the element at the clamped coordinate's index replaced |
| Raster.Image.Clamped | Assets/MaximovInk/MKPixelRot/MKTextureData.cs:25-31 | the clamped pixel read equals the plain read on in-range coordinates |
| Raster.ClampedAt | Assets/MaximovInk/MKPixelRot/MKTextureData.cs:25-31 | the clamped read is the read at (Clamp(x, 0, W - 1), Clamp(y, 0, H - 1)), which lies in the raster when W, H >= 1 |
| Raster.ClampedIn | Assets/MaximovInk/MKPixelRot/MKTextureData.cs:25-31 | the clamped read always returns one of the raster's pixels |
| Raster.DataAt | Assets/MaximovInk/MKPixelRot/MKTextureData.cs:15-18 | every array element is the pixel of the coordinate (i % W, i / W), which is in range |
| Raster.Image.Put | Assets/MaximovInk/MKPixelRot/MKTextureData.cs:33-36 | a one-pixel write keeps the dimensions |
| Raster.PutAt | Assets/MaximovInk/MKPixelRot/MKTextureData.cs:33-36 | writing one pixel changes that pixel and leaves every other pixel as it was |
| Raster.PutTwice | Assets/MaximovInk/MKPixelRot/MKTextureData.cs:33-36 | a second write to the same pixel overrides the first |
| Raster.PutSame | Assets/MaximovInk/MKPixelRot/MKTextureData.cs:33-36 | writing a pixel's own value back changes nothing |
| TextureData.MKTextureData.Length | Assets/MaximovInk/MKPixelRot/MKTextureData.cs:12 | the element count is Width * Height |
| TextureData.MKTextureData.Value | Assets/MaximovInk/MKPixelRot/MKTextureData.cs:9-11 | the buffer's value has its Width, Height and element sequence, and is a well-formed raster when Length == Width * Height |
| TextureData.MKTextureData.constructor | Assets/MaximovInk/MKPixelRot/MKTextureData.cs:46-52 | a fresh array with Width == w, Height == h, Length == w * h and every element (0, 0, 0, 0) |
| TextureData.MKTextureData.GetIndex2D | Assets/MaximovInk/MKPixelRot/MKTextureData.cs:15-18 | for in-range coordinates the index lies in [0, W * H), and the coordinate is recovered from it, so distinct coordinates never collide |
| TextureData.MKTextureData.GetUnsafe | Assets/MaximovInk/MKPixelRot/MKTextureData.cs:20-23 | defined whenever the index lies in the array; returns an element of it |
| TextureData.MKTextureData.Get | Assets/MaximovInk/MKPixelRot/MKTextureData.cs:25-31 | when W, H >= 1 the read never goes out of range, returns an element of Data, equals GetUnsafe on in-range coordinates and is the clamped pixel of the buffer's value |
| TextureData.MKTextureData.SetUnsafe | Assets/MaximovInk/MKPixelRot/MKTextureData.cs:33-36 | only Data[x + y * Width] changes, a following GetUnsafe(x, y) returns the written colour, and on in-range coordinates the buffer's value is the old one with that pixel replaced; Width, Height and Length are fixed |
| TextureData.MKTextureData.Set | Assets/MaximovInk/MKPixelRot/MKTextureData.cs:38-44 | only the element at the clamped index changes, a following Get(x, y) returns the written colour, and the buffer's value is the old one with the clamped pixel replaced |
| TextureUtilities.Approximately | Assets/MaximovInk/MKPixelRot/MKTextureUtilites.cs:315-318 | Mathf.Approximately: the two values differ by less than 1e-6 times the larger magnitude, or by less than 8 × Mathf.Epsilon |
| TextureUtilities.AreColorsSame | Assets/MaximovInk/MKPixelRot/MKTextureUtilites.cs:312-319 | two colours are the same when Mathf.Approximately holds on each of r, g, b and a, taken as byte / 255 |
| TextureUtilities.ApproximatelyOnChannels | Assets/MaximovInk/MKPixelRot/MKTextureUtilites.cs:312-319 | Mathf.Approximately on two channels converted to [0, 1] holds exactly when the two bytes are equal |
| TextureUtilities.AreColorsSameIsEquality | Assets/MaximovInk/MKPixelRot/MKTextureUtilites.cs:312-319 | AreColorsSame(a, b) holds if and only if a == b |
| TextureUtilities.OpaqueBounds | Assets/MaximovInk/MKPixelRot/MKTextureUtilites.cs:13-33 | the scan leaves minX, minY, maxX, maxY as the bounding box of the pixels with a != 0: every such pixel is inside and each edge is touched by one; with no such pixel they keep W - 1, H - 1, 0, 0 |
| TextureUtilities.CopyWindow | Assets/MaximovInk/MKPixelRot/MKTextureUtilites.cs:44-54 | a new sizeX × sizeY buffer whose pixel (ix, iy) is the clamped read of (minX + ix, minY + iy) |
| TextureUtilities.CropImage | Assets/MaximovInk/MKPixelRot/MKTextureUtilites.cs:44-54 | the copied window has the requested sizeX × sizeY dimensions |
| TextureUtilities.Trim | Assets/MaximovInk/MKPixelRot/MKTextureUtilites.cs:11-57 | with an opaque pixel: a fresh buffer equal to the crop of the bounding box; without one: the input itself when W >= 2 or H >= 2, and a fresh equal 1 × 1 copy for a 1 × 1 input |
| TextureUtilities.BoundingBoxInside | Assets/MaximovInk/MKPixelRot/MKTextureUtilites.cs:13-33 | the bounding box lies inside the raster, so the trimmed size is maxX - minX + 1 by maxY - minY + 1, both at least 1 |
| TextureUtilities.BoundingBoxUnique | Assets/MaximovInk/MKPixelRot/MKTextureUtilites.cs:13-33 | a raster has at most one bounding box, so Trim's result is determined by its input |
| TextureUtilities.CropAt | Assets/MaximovInk/MKPixelRot/MKTextureUtilites.cs:44-54 | inside the raster the trimmed pixel (ix, iy) is the input pixel (minX + ix, minY + iy) |
| TextureUtilities.CropWhole | Assets/MaximovInk/MKPixelRot/MKTextureUtilites.cs:35-54 | the 1 × 1 window that a transparent 1 × 1 input is copied through is that input |
| TextureUtilities.TrimKeepsOpaque | Assets/MaximovInk/MKPixelRot/MKTextureUtilites.cs:11-57 | every pixel with a != 0 appears in the trimmed buffer, shifted by the box's top-left corner |
| TextureUtilities.CropOpaque | Assets/MaximovInk/MKPixelRot/MKTextureUtilites.cs:44-54 | an opaque pixel inside the window is opaque at its shifted place in the copy |
| TextureUtilities.TrimTight | Assets/MaximovInk/MKPixelRot/MKTextureUtilites.cs:11-57 | the trimmed buffer's own bounding box is the whole buffer, so trimming twice trims nothing more |
| TextureUtilities.CanvasOffset | Assets/MaximovInk/MKPixelRot/MKTextureUtilites.cs:99 | the centring offset newSize / 2 - size / 2 along one axis, both halves rounded down |
| TextureUtilities.LastWriter | Assets/MaximovInk/MKPixelRot/MKTextureUtilites.cs:103-113 | along one axis, the source coordinate ResizeUpCanvas writes last to canvas coordinate d: it writes to d and no later one does, or there is none |
| TextureUtilities.ResizeCell | Assets/MaximovInk/MKPixelRot/MKTextureUtilites.cs:103-114 | canvas pixel (X, Y) holds the source pixel of the last column and, within it, the last row whose clamped write lands there, and (0, 0, 0, 0) when none does |
| TextureUtilities.ResizePixel | Assets/MaximovInk/MKPixelRot/MKTextureUtilites.cs:107-112 | one clamped write of source pixel (sX, sY) extends the written region by that pixel |
| TextureUtilities.ResizeColumn | Assets/MaximovInk/MKPixelRot/MKTextureUtilites.cs:105-113 | the inner loop writes source column sX, in row order |
| TextureUtilities.ResizeColumns | Assets/MaximovInk/MKPixelRot/MKTextureUtilites.cs:103-114 | the outer loop writes all source columns in order |
| TextureUtilities.ResizeImage | Assets/MaximovInk/MKPixelRot/MKTextureUtilites.cs:101 | the canvas is newSize × newSize whatever the source size |
| TextureUtilities.ResizeUpCanvas | Assets/MaximovInk/MKPixelRot/MKTextureUtilites.cs:97-117 | a fresh newSize × newSize buffer whose every pixel holds the last source pixel the clamped writes send there, or (0, 0, 0, 0) |
| TextureUtilities.LastWriterUnclamped | Assets/MaximovInk/MKPixelRot/MKTextureUtilites.cs:107-112 | when the shifted axis fits the canvas, d is written by exactly d - offset, or by nothing |
| TextureUtilities.CanvasOffsetFits | Assets/MaximovInk/MKPixelRot/MKTextureUtilites.cs:99 | for newSize >= size the offset newSize / 2 - size / 2 places the whole axis on the canvas |
| TextureUtilities.ResizeCentered | Assets/MaximovInk/MKPixelRot/MKTextureUtilites.cs:97-117 | for newSize >= W, H, source (sX, sY) lands at (sX + newSize / 2 - W / 2, sY + newSize / 2 - H / 2) and every other pixel stays (0, 0, 0, 0) |
| TextureUtilities.ResizeCenteredInside | Assets/MaximovInk/MKPixelRot/MKTextureUtilites.cs:97-117 | for newSize >= W, H, each source pixel is found at its shifted place |
| TextureUtilities.ResizeThenCropAt | Assets/MaximovInk/MKPixelRot/MKTextureUtilites.cs:97-117 | each pixel of the centred window cut back out of the canvas is the input pixel at the same place |
| TextureUtilities.ResizeThenCrop | Assets/MaximovInk/MKPixelRot/MKTextureUtilites.cs:97-117 | cutting the centred window back out of the canvas gives the input |
| TextureUtilities.ResizePalette | Assets/MaximovInk/MKPixelRot/MKTextureUtilites.cs:103-114 | whatever the sizes, every canvas pixel is (0, 0, 0, 0) or a source pixel, so an oversized input is folded onto the border, not replaced by new colours |
| TextureUtilities.Scale2xRule | Assets/MaximovInk/MKPixelRot/MKTextureUtilites.cs:179-193 | the block for E with neighbours B, H, D and F. When B != H and D != F, each corner takes D or F where its two neighbours agree and E otherwise. In every other case all four cells are E |
| TextureUtilities.Scale2xBlock | Assets/MaximovInk/MKPixelRot/MKTextureUtilites.cs:172-193 | the block of source pixel (x, y), its four neighbours and E read through the clamped Get |
| TextureUtilities.Scale2xCell | Assets/MaximovInk/MKPixelRot/MKTextureUtilites.cs:181-192 | output pixel (X, Y) is the quadrant (X % 2, Y % 2) of the block of source pixel (X / 2, Y / 2) |
| TextureUtilities.Scale2xRuleByAreColorsSame | Assets/MaximovInk/MKPixelRot/MKTextureUtilites.cs:179-193 | the block rule written with AreColorsSame is the block rule written with == |
| TextureUtilities.Scale2xRuleCopies | Assets/MaximovInk/MKPixelRot/MKTextureUtilites.cs:179-193 | the rule only copies: the left cells are D or E and the right cells are F or E |
| TextureUtilities.Scale2xImageAt | Assets/MaximovInk/MKPixelRot/MKTextureUtilites.cs:156-202 | output pixel (X, Y) of the 2W × 2H result is its quadrant of the block of source pixel (X / 2, Y / 2), whose neighbours are read through the clamped Get |
| TextureUtilities.PutBlockAt | Assets/MaximovInk/MKPixelRot/MKTextureUtilites.cs:181-192 | the four writes of a block set (2x, 2y), (2x + 1, 2y), (2x, 2y + 1) and (2x + 1, 2y + 1) and nothing else |
| TextureUtilities.WriteBlock | Assets/MaximovInk/MKPixelRot/MKTextureUtilites.cs:181-184 | the four unchecked writes produce the block |
| TextureUtilities.WriteUniformBlock | Assets/MaximovInk/MKPixelRot/MKTextureUtilites.cs:189-192 | the four clamped writes of E produce the uniform block |
| TextureUtilities.Scale2xPixel | Assets/MaximovInk/MKPixelRot/MKTextureUtilites.cs:172-193 | one inner-loop step writes the block of (x, y) given by the rule on its clamped neighbours |
| TextureUtilities.Scale2xImage | Assets/MaximovInk/MKPixelRot/MKTextureUtilites.cs:158-165 | the result is 2W × 2H |
| TextureUtilities.Scale2x | Assets/MaximovInk/MKPixelRot/MKTextureUtilites.cs:156-202 | a fresh 2W × 2H buffer equal to the Scale2x image of the input |
| TextureUtilities.Scale2xUniform | Assets/MaximovInk/MKPixelRot/MKTextureUtilites.cs:172-193 | a raster of one colour scales to a raster of that colour |
| TextureUtilities.Scale2xPalette | Assets/MaximovInk/MKPixelRot/MKTextureUtilites.cs:172-193 | every output pixel is one of the input's pixels |
| TextureUtilities.Scale2xKeepsPalette | Assets/MaximovInk/MKPixelRot/MKTextureUtilites.cs:156-202 | every colour in the output's contents occurs in the input's contents |
| TextureUtilities.CopyElements | Assets/MaximovInk/MKPixelRot/MKTextureUtilites.cs:231-234 | the copy-back loop makes the target's elements equal to the source's, element for element |
| TextureUtilities.RotateCell | Assets/MaximovInk/MKPixelRot/MKTextureUtilites.cs:217-227 | output pixel (x, y) is the input pixel at the sampled point when that point lies in [0, W) × [0, H), and (0, 0, 0, 0) otherwise |
| TextureUtilities.RotateRow | Assets/MaximovInk/MKPixelRot/MKTextureUtilites.cs:215-228 | one row of the rotation: each pixel is cleared, then overwritten by the sampled source pixel when that point lies inside |
| TextureUtilities.RotateImage | Assets/MaximovInk/MKPixelRot/MKTextureUtilites.cs:204-235 | the rotation keeps W × H |
| TextureUtilities.Rotate | Assets/MaximovInk/MKPixelRot/MKTextureUtilites.cs:204-235 | in place and keeping W × H, the buffer becomes the rotated image of its old contents |
| TextureUtilities.RotatePalette | Assets/MaximovInk/MKPixelRot/MKTextureUtilites.cs:217-227 | each output pixel is the source pixel at the sampled point when that point lies in [0, W) × [0, H), and (0, 0, 0, 0) otherwise |
| TextureUtilities.RotateKeepsPalette | Assets/MaximovInk/MKPixelRot/MKTextureUtilites.cs:204-235 | every colour of the rotated contents is (0, 0, 0, 0) or a colour of the input |
| TextureUtilities.RotateIdentity | Assets/MaximovInk/MKPixelRot/MKTextureUtilites.cs:204-235 | with the identity sampling map (angle 0) the rotation changes nothing |
| TextureUtilities.RotateByQuarterTurn | Assets/MaximovInk/MKPixelRot/MKTextureUtilites.cs:204-260 | relates two maps inside the model: sampling a square raster through the map (x, y) -> (y, n - 1 - x) gives Rotate90's result. The source's trigonometry at 90 degrees samples (y, n - x) on even n, one row apart, so this is not a claim about Rotate called with 90 |
| TextureUtilities.Rotate90Cell | Assets/MaximovInk/MKPixelRot/MKTextureUtilites.cs:248-252 | output (X, Y) of an n × n quarter turn is input (Y, n - 1 - X) |
| TextureUtilities.Rotate90At | Assets/MaximovInk/MKPixelRot/MKTextureUtilites.cs:248-252 | the pixel at (col, row) moves to (n - 1 - row, col) |
| TextureUtilities.Rotate90ImageAt | Assets/MaximovInk/MKPixelRot/MKTextureUtilites.cs:237-260 | output pixel (X, Y) is the source pixel (Y, n - 1 - X), so every output pixel comes from exactly one source pixel |
| TextureUtilities.Rotate90Row | Assets/MaximovInk/MKPixelRot/MKTextureUtilites.cs:246-253 | one row of the quarter turn written into the scratch buffer |
| TextureUtilities.Rotate90Image | Assets/MaximovInk/MKPixelRot/MKTextureUtilites.cs:237-260 | the quarter turn keeps the square's dimensions |
| TextureUtilities.Rotate90 | Assets/MaximovInk/MKPixelRot/MKTextureUtilites.cs:237-260 | on a square buffer, in place and with the same dimensions, the buffer becomes the quarter turn of its old contents |
| TextureUtilities.Rotate90KeepsPalette | Assets/MaximovInk/MKPixelRot/MKTextureUtilites.cs:237-260 | every colour of the turned contents is a colour of the input |
| TextureUtilities.Rotate90TwiceAt | Assets/MaximovInk/MKPixelRot/MKTextureUtilites.cs:237-260 | two quarter turns send (X, Y) to (n - 1 - X, n - 1 - Y) |
| TextureUtilities.FourQuarterTurnsAt | Assets/MaximovInk/MKPixelRot/MKTextureUtilites.cs:237-260 | four quarter turns leave every pixel where it was |
| TextureUtilities.FourQuarterTurns | Assets/MaximovInk/MKPixelRot/MKTextureUtilites.cs:237-260 | four quarter turns restore the original raster |
| TextureUtilities.Step | Assets/MaximovInk/MKPixelRot/MKTextureUtilites.cs:269-270 | the block size along one axis, oldSize / newSize rounded down, and 0 for an empty target |
| TextureUtilities.BlendColumn | Assets/MaximovInk/MKPixelRot/MKTextureUtilites.cs:285-288 | the pixel after the first k lerps of the inner iy loop, against the clamped reads (srcX + ix, srcY + iy) in order |
| TextureUtilities.BlendBlock | Assets/MaximovInk/MKPixelRot/MKTextureUtilites.cs:283-289 | the pixel after the ix loop has run BlendColumn over columns 0 .. k - 1 in order |
| TextureUtilities.ScaleDownCell | Assets/MaximovInk/MKPixelRot/MKTextureUtilites.cs:276-291 | output pixel (x, y) is (0, 0, 0, 0) when the block start (stepX * x, stepY * y) lies outside the input. Otherwise it is that start pixel blended over the stepX × stepY block |
| TextureUtilities.BlendPixel | Assets/MaximovInk/MKPixelRot/MKTextureUtilites.cs:283-289 | the block loop, ix outer and iy inner, lerps the pixel against the clamped reads (srcX + ix, srcY + iy) in that order |
| TextureUtilities.ScaleDownColumn | Assets/MaximovInk/MKPixelRot/MKTextureUtilites.cs:274-292 | one output column: blocks starting outside the input are skipped and the others are sampled and blended |
| TextureUtilities.ScaleDownImage | Assets/MaximovInk/MKPixelRot/MKTextureUtilites.cs:262-297 | the result is newWidth × newHeight |
| TextureUtilities.ScaleDown | Assets/MaximovInk/MKPixelRot/MKTextureUtilites.cs:262-297 | a fresh newWidth × newHeight buffer; output (x, y) starts from input (stepX * x, stepY * y) with floor steps, and stays (0, 0, 0, 0) when that point is outside |
| TextureUtilities.BlendColumnKeeps | Assets/MaximovInk/MKPixelRot/MKTextureUtilites.cs:285-288 | with a blend on which the lerp keeps its first colour, a column of lerps leaves the pixel unchanged |
| TextureUtilities.BlendBlockKeeps | Assets/MaximovInk/MKPixelRot/MKTextureUtilites.cs:283-289 | under the same condition the whole block of lerps leaves the pixel unchanged |
| TextureUtilities.ScaleDownSamplesBlockStart | Assets/MaximovInk/MKPixelRot/MKTextureUtilites.cs:276-291 | with blend 0 each output pixel is exactly the block's top-left sample, or (0, 0, 0, 0) when that sample is outside |
| TextureUtilities.ScaleDownBlocksInside | Assets/MaximovInk/MKPixelRot/MKTextureUtilites.cs:269-279 | on a non-empty input every block starts inside it, so the skip is never taken |
| TextureUtilities.InsertCell | Assets/MaximovInk/MKPixelRot/MKTextureUtilites.cs:301-308 | canvas pixel (X, Y) after the paste is frame pixel (X - xOffset, Y - yOffset) when that lies in the frame, and the old canvas pixel otherwise |
| TextureUtilities.InsertColumn | Assets/MaximovInk/MKPixelRot/MKTextureUtilites.cs:303-308 | one inner loop writes frame column i at its offset place |
| TextureUtilities.InsertImage | Assets/MaximovInk/MKPixelRot/MKTextureUtilites.cs:299-310 | pasting keeps the canvas's dimensions |
| TextureUtilities.InsertToTexture | Assets/MaximovInk/MKPixelRot/MKTextureUtilites.cs:299-310 | when the frame fits, the canvas becomes the insert image of its old contents and the frame is unchanged |
| TextureUtilities.InsertAt | Assets/MaximovInk/MKPixelRot/MKTextureUtilites.cs:299-310 | canvas pixel (i + xOffset, j + yOffset) becomes frame pixel (i, j), and every other canvas pixel keeps its value |
| TextureUtilities.InsertThenCrop | Assets/MaximovInk/MKPixelRot/MKTextureUtilites.cs:299-310 | cutting the frame's window back out of the canvas gives the frame |
| PixelRotSprite.GetCopy | Assets/MaximovInk/MKPixelRot/Scripts/MKPixelRotSprite.cs:245-255 | a fresh buffer with the same Width and Height and element-wise equal Data |
| PixelRotSprite.Upscaled | Assets/MaximovInk/MKPixelRot/Scripts/MKPixelRotSprite.cs:294-298 | the buffer after three Scale2x passes is 8W × 8H |
| PixelRotSprite.RotateSprite | Assets/MaximovInk/MKPixelRot/Scripts/MKPixelRotSprite.cs:257-305 | right angles keep W × H, and every other angle yields size × size |
| PixelRotSprite.GetRotate | Assets/MaximovInk/MKPixelRot/Scripts/MKPixelRotSprite.cs:257-305 | a fresh buffer: at 0 and 360 a copy, at 90, 180 and 270 a copy turned by one, two or three quarter turns, and otherwise three Scale2x passes, the rotation and a ScaleDown to size × size; the caller's buffer is unchanged |
| PixelRotSprite.RotateSpriteIdentity | Assets/MaximovInk/MKPixelRot/Scripts/MKPixelRotSprite.cs:263-270 | at 0 and 360 the content is the input |
| PixelRotSprite.HalfTurnTwice | Assets/MaximovInk/MKPixelRot/Scripts/MKPixelRotSprite.cs:277-282 | on a square sprite the 180-degree result, rotated by 180 degrees again, is the original |
| PixelRotSprite.QuarterThenThreeQuarters | Assets/MaximovInk/MKPixelRot/Scripts/MKPixelRotSprite.cs:271-288 | on a square sprite, 90 then 270 degrees (in either order) gives back the original |
| PixelRotSprite.RightAngleKeepsPalette | Assets/MaximovInk/MKPixelRot/Scripts/MKPixelRotSprite.cs:263-288 | at a right angle the sprite shows only colours of the input |
| PixelRotSprite.FreeAngleKeepsPalette | Assets/MaximovInk/MKPixelRot/Scripts/MKPixelRotSprite.cs:294-302 | at any other angle, with a blend on which the lerp keeps its first colour, every pixel is (0, 0, 0, 0) or a colour of the input, so the pipeline invents no colours |
| PixelRotSprite.CalculateAngle | Assets/MaximovInk/MKPixelRot/Scripts/MKPixelRotSprite.cs:159-163 | the wrap loop returns a value at most 360; values already at most 360 (360 and negatives included) pass unchanged, and larger ones land in (0, 360] and differ from the input by whole turns |
| PixelRotSprite.WrappedAngle | Assets/MaximovInk/MKPixelRot/Scripts/MKPixelRotSprite.cs:159-163 | the reference result of the wrap loop: at most 360, the input itself when at most 360, and otherwise in (0, 360] and a whole number of turns below the input |
| PixelRotSprite.WrappedAngleUnique | Assets/MaximovInk/MKPixelRot/Scripts/MKPixelRotSprite.cs:159-163 | for inputs above 360, only one value in (0, 360] differs from the input by whole turns, so the loop's result is determined |

## Left out

- Threads, the cached sprite sheet and the realtime dirty-flag handoff are not modelled. They are concurrency and Unity object creation.
- The 8-argument `InsertToTexture` overload that the cached sheet builder calls is not part of this model. Its source is not available.
- `GetSpriteDataForRot` and `GetSize` are not modelled. They read `Sprite.rect` and `Texture2D.GetPixels32`, and use float arithmetic. The target size is a parameter of `GetRotate` instead.
- The float trigonometry of `Rotate` and `Color.Lerp` in `ScaleDown` are abstracted:
  - Rotate: the map from an output coordinate to its source coordinate, after the `(int)` casts, is the parameter `sample`.
  - ScaleDown: the lerp is the parameter `lerp`.
  - Neither is computed.
- The float part of `CalculateAngle` is not modelled. This covers the Euler angle, `_angleOffset`, `_angleStep` and `Mathf.Round`. The model starts from the rounded integer.
- The Texture2D-based `Scripts/MKTextureUtilites.cs` and `GPUTextureScaler` are not modelled. They duplicate the transforms on Unity textures.
- The Unity lifecycle, sprite and texture creation, the editor scripts and the demo script are not modelled. They are host glue.
- Width and Height are `nat`, so negative sizes are not modelled. The source's `new Color32[w * h]` throws only when exactly one size is negative and the other is non-zero. A -1 × -1 buffer gets one element and a -3 × 0 buffer gets none; both carry on with negative sizes.
- 32-bit overflow of `x + y * Width` and `w * h` is not modelled. Indices are unbounded integers.
- Trim: requires `TrimDefined`, that is not a 0 × 0, 0 × 1 or 1 × 0 buffer. On those the source's copy loop reads `Get` on an empty array.
- Rotate90: requires a square buffer. That is a call-site guarantee rather than an index bound. Every caller hands `GetRotate` a square buffer: either `GetSpriteDataForRot`'s size × size buffer (MKTextureUtilites.cs:127, received at Scripts/MKPixelRotSprite_Cached.cs:134 and Scripts/MKPixelRotSprite_Realtime.cs:35) or, with `TrimSource`, `ResizeUpCanvas`'s newSize × newSize output (MKPixelRotSprite_Realtime.cs:26-30). The requirement excludes cases where the source does not fail:
  - a 1 × H buffer with H >= 2, where the write index `(H - 1 - row) + col * W` stays in range and the column is reversed;
  - a W × 0 or 0 × H buffer, which writes nothing.
  The writes collide when 2 <= W < H, and they leave the array when W > H >= 1.
- GetRotate: requires 90, 180 and 270 degrees to be called on square buffers, because those paths call Rotate90. Every call site passes such a buffer: `GetSpriteDataForRot`'s size × size buffer or, with `TrimSource`, `ResizeUpCanvas`'s newSize × newSize output.
- InsertToTexture: requires the frame to fit the canvas and the two buffers not to share an array. Both are stronger than the index bound. The model does not cover offsets whose unchecked writes wrap into the next row, nor aliased buffers.
- ScaleDown: models `(int)(oldWidth / (float)newWidth)` as floor division. Float rounding of the quotient, which matters only above 2^24 pixels, is not modelled.
- Trim: the `Debug.Log` message on the fully transparent path is not modelled. Logging is I/O.
- ResizeUpCanvas: requires newSize >= 1 unless the input is empty. At newSize 0 the canvas's array is empty, and the clamped write (MKTextureUtilites.cs:112) indexes it out of range. The one call site passes `GetSize` of the trimmed size, `(int)(max(W, H) * 1.3)`, which is at least 1 because Trim's result is at least 1 × 1 (MKPixelRotSprite_Realtime.cs:26-30).
- Get and Set: require W, H >= 1. On an empty buffer the clamp yields an index outside the array.
- AreColorsSameIsEquality: the float conversion `byte / 255f` is modelled as exact real division, and `Mathf.Approximately` on reals. Single-precision rounding is not modelled.
