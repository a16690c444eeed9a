# LERC raster tile source — a Dafny model

This project models the core of the LERC tile source of a WebGL map renderer
(`src/source/lerc_tile_source.js`). The source fetches one compressed tile,
lets the LERC decoder turn it into a grid of numeric samples, normalises
band 0 of that grid into an 8-bit RGBA ImageData buffer, and uploads the
buffer into the tile's WebGL texture. The model covers two parts.

- **The normaliser** (module `Normalize`, file `normalize.dfy`). Output
  pixel `i` reads sample `j = i + floor(i / width)`, which skips the one
  padding sample at the end of each row. The sample is scaled by
  `256 / (max - min)` and stored into a clamped byte. That byte goes into
  channels 0–2. Channel 3 is 0 where a mask is present and its entry is
  falsy, and 255 otherwise. The loop is `FillImageData`, a method over an
  `array<byte>`. It is proved equal to the specification function
  `RgbaImage`, and the lemmas state the properties of `RgbaImage`.
- **The completion state machine** (module `LercTileSource`, file
  `tile_source.dfy`). These are classes for the tile record (`request`,
  `aborted`, `state`, `texture`), the pending request and the source.
  `Done` is the fetch completion. It deletes the request,
  then checks for an abort, then for a network error, then decodes,
  normalises and uploads. The upload either creates a texture (first load)
  or updates the existing one with a sub-image upload. `AbortTile`,
  `UnloadTile`, `LoadTile`, `SetBounds`, `HasTile`, `Serialize` and the
  `$` stripping of the tile URL are modelled too.
- **The GPU** (module `Gpu`, file `gpu.dfy`). The class `Painter` stands
  for the WebGL context plus the painter's texture pool. It counts texture
  creations, full uploads and sub-image uploads, keeps the sized RGBA image
  each texture holds, and keeps the pool. A full upload (`texImage2D`)
  defines a texture's image and size. A sub-image upload at (0, 0)
  (`texSubImage2D`) never resizes: an image wider or taller than the
  texture is refused with INVALID_VALUE and changes nothing; a smaller one
  overwrites only the top-left rectangle it covers. These are the rules
  WebGL and OpenGL ES 2.0 give `texSubImage2D`: the written rectangle must
  lie inside the texture's existing image.

Numbers are exact reals. A read past the end of the sample array yields
`undefined`, so the arithmetic produces NaN. A zero range makes the scale
+Infinity. These IEEE cases are written out as explicit branches and are not
excluded by a precondition. Storing into the Uint8ClampedArray is modelled
exactly as the clamped-array conversion does it: clamp to [0, 255], then
round to nearest with ties to even.

The model follows the code as written, including these behaviours that a
reader of the source's intent might not expect:

- On abort and on a network error, the code assigns the source object's
  `state` (`this.state`, lines 86 and 91), not the tile's. The tile's state
  is left as it was.
- There is no fallback for `max == min` (line 109). A sample above `min`
  stores 255. Any other sample stores 0, because `0 * Infinity` is NaN and
  `-Infinity` clamps to 0. The image is uniformly 0 exactly when no sample
  that is read exceeds `min`.
- A decoder exception (line 96) is not caught. It escapes the completion: no
  callback runs and no state is set to errored. This is `Outcome.Threw`.
  The same holds for the exception `createImageData` raises for a zero
  width or height (line 107).
- The texture pool is never consulted. A completion on a tile whose state is
  not `loaded` always creates a new texture (line 136). A tile that is
  reloaded after being loaded therefore gets a second texture, and its first
  handle is neither kept nor pooled.
- `resize` is the constant `false` (line 132), so a loaded tile is never
  re-uploaded in full. A refresh that decodes to a larger grid than the
  first load is refused by the GPU and leaves the old image in place; a
  smaller one updates only the top-left part of the texture.

## Model

| member | source | states |
|---|---|---|
| `Normalize.ClampToByte` | src/source/lerc_tile_source.js:107-117 | A value stored into the clamped ImageData array becomes 0 at or below 0 and 255 at or above 255. Inside that range it becomes the nearest integer, within 1/2, with ties going to the even integer. |
| `Normalize.ClampToByteMonotone` | src/source/lerc_tile_source.js:107-117 | The byte store preserves order: `v <= w` implies `ClampToByte(v) <= ClampToByte(w)`. |
| `Normalize.SourceIndex` | src/source/lerc_tile_source.js:112-113 | `j = i + floor(i/width)` is column `i % width` of row `i / width` in a layout with `width + 1` samples per row. Equivalently, `j / (width+1) == i / width` and `j % (width+1) == i % width`. |
| `Normalize.SourceIndexSkipsPadding` | src/source/lerc_tile_source.js:111-113 | No read lands on the padding slot of a row (`j % (width+1) != width`). The reads strictly increase from one output pixel to the next. |
| `Normalize.ReadsWithinSamplesNeeded` | src/source/lerc_tile_source.js:111-114 | Every read index is below `width*height + height - 1`. The last pixel reads exactly `width*height + height - 2`, so that many samples plus one are needed. |
| `Normalize.EnoughSamplesAllDefined` | src/source/lerc_tile_source.js:103-114 | When `pixels` holds `width*height + height - 1` samples, no read is `undefined`. |
| `Normalize.RowSkipExample` | src/source/lerc_tile_source.js:111-113 | For width 4 and height 2 the indices read are `[0,1,2,3,5,6,7,8]`. |
| `Normalize.RgbaImage` | src/source/lerc_tile_source.js:107-120 | The ImageData buffer holds `4 * width * height` bytes. |
| `Normalize.FillImageData` | src/source/lerc_tile_source.js:106-120 | The in-place loop leaves the ImageData bytes equal to `RgbaImage` of the decoded grid. |
| `Normalize.ReadPixel` | src/source/lerc_tile_source.js:109-119 | One iteration's reads, with the scale `f = 256/(max-min)` computed once outside the loop. `pv` is what the byte store keeps of `(pixels[j]-min)*f`, and alpha is the mask rule `Alpha` at `j`. These agree with the specification functions in every case, including `undefined` reads and `max == min`. |
| `Normalize.PixelLayout` | src/source/lerc_tile_source.js:111-119 | Bytes `4i..4i+3` of the buffer are `[pv, pv, pv, alpha]`. `pv` is the luminance of sample `j = SourceIndex(i)` and alpha is the mask rule `Alpha` at `j`. |
| `Normalize.AlphaZeroIff` | src/source/lerc_tile_source.js:118-119 | Alpha is 0 if and only if a mask is present and its entry `j` is 0 or missing. Otherwise alpha is 255. |
| `Normalize.NoMaskOpaque` | src/source/lerc_tile_source.js:118-119 | With no mask, every alpha byte is 255. |
| `Normalize.SampleAt` | src/source/lerc_tile_source.js:113-114 | The read `pixels[j]` is defined exactly when `j` is below the array's length and is then that sample; past the end it is `undefined`. |
| `Normalize.Alpha` | src/source/lerc_tile_source.js:118-119 | The mask rule: alpha is 0 when a mask is present and entry `j` is 0 or past its end, and 255 otherwise, in particular always 255 without a mask. |
| `Normalize.Channel` | src/source/lerc_tile_source.js:112-119 | Channels 0-2 of output pixel `i` are the luminance of the sample it reads and channel 3 is the mask rule at its source index `j`, always 0 or 255. |
| `Normalize.Luminance` | src/source/lerc_tile_source.js:109-114 | An `undefined` sample, read past the end of the array, stores 0. |
| `Normalize.LuminanceAtMin` | src/source/lerc_tile_source.js:109-115 | A sample equal to `min` stores 0, including when `max == min`. |
| `Normalize.LuminanceAtMax` | src/source/lerc_tile_source.js:109-115 | When `max > min`, a sample equal to `max` computes to 256 and stores 255. |
| `Normalize.LuminanceClamped` | src/source/lerc_tile_source.js:107-115 | When `max > min`, a sample at or below `min` stores 0 and a sample at or above `max` stores 255. |
| `Normalize.LuminanceMonotone` | src/source/lerc_tile_source.js:109-115 | When `max > min`, a larger sample never stores a smaller luminance. |
| `Normalize.ReadSample` | src/source/lerc_tile_source.js:112-114 | The sample output pixel `i` reads is defined exactly when its index `SourceIndex(i)` is inside the sample array. |
| `Normalize.DegenerateRangeBinary` | src/source/lerc_tile_source.js:109-117 | When `max == min`, the infinite scale makes every luminance byte 0 or 255: neither NaN nor ±Infinity reaches the buffer as anything else. |
| `Normalize.DegeneratePixel` | src/source/lerc_tile_source.js:109-117 | When `max == min`, a pixel's three colour bytes are equal, and they are 0 exactly when its sample is undefined or at most `min`. |
| `Normalize.DegenerateRangeZeroIfLow` | src/source/lerc_tile_source.js:109-117 | When `max == min` and no read sample exceeds `min`, every luminance byte is 0. |
| `Normalize.DegenerateRangeLowIfZero` | src/source/lerc_tile_source.js:109-117 | When `max == min` and every luminance byte is 0, no read sample exceeds `min`. |
| `Normalize.DegenerateRangeUniform` | src/source/lerc_tile_source.js:109-117 | When `max == min`, every luminance byte is 0 if and only if no sample that is read exceeds `min`. |
| `Normalize.TwoByTwoExample` | src/source/lerc_tile_source.js:106-120 | A 2×2 grid with samples `[10,20,21,30,40]` (21 is padding), range [10,40] and no mask gives luminances 0, 85, 171 and 255, all with alpha 255. |
| `LercTileSource.StripDollars` | src/source/lerc_tile_source.js:79 | The stripped URL has no `$`. |
| `LercTileSource.StripDollarsCounts` | src/source/lerc_tile_source.js:79 | The stripped URL's length is the input length minus the number of `$`. Every other character occurs as often as in the input. |
| `LercTileSource.StripDollarsConcat` | src/source/lerc_tile_source.js:79 | Stripping distributes over concatenation, so the order of the kept characters is preserved. |
| `LercTileSource.StripDollarsKeepsClean` | src/source/lerc_tile_source.js:79 | A URL without `$` is unchanged, so stripping is idempotent. |
| `LercTileSource.LercSource.constructor` | src/source/lerc_tile_source.js:14-29 | Defaults are scheme `xyz`, tile size 512 and zoom range 0–9. Each option that is present overrides its default. |
| `LercTileSource.LercSource.Serialize` | src/source/lerc_tile_source.js:63-71 | The descriptor has type `lerc` and the source's current url, tileSize, tiles and bounds. |
| `LercTileSource.LercSource.HasTile` | src/source/lerc_tile_source.js:73-75 | With no bounds object the result is always true. Otherwise it is exactly what the bounds test says at `maxzoom`. |
| `LercTileSource.LercSource.SetBounds` | src/source/lerc_tile_source.js:56-61 | `bounds` is always set. The bounds object is rebuilt from the zoom range only when bounds are given, and is otherwise kept. The serialized descriptor changes only in `bounds`. |
| `LercTileSource.LercSource.LoadTile` | src/source/lerc_tile_source.js:77-80 | The tile gets a fresh pending request for the `$`-stripped URL. |
| `LercTileSource.LercSource.Done` | src/source/lerc_tile_source.js:82-151 | The request is always deleted first. Aborted takes precedence: callback(null), the source state becomes unloaded, and the tile and GPU are untouched. Next, an error is passed to the callback, the source state becomes errored, and the tile and GPU are untouched. A decode or ImageData exception escapes without a callback. On success the tile becomes loaded. A tile that was not loaded gets exactly one new texture, different from every earlier one, with one full upload of `RgbaImage` at the grid's size. A tile that was loaded keeps its handle and gets one sub-image upload and no creation. The texture then holds `SubImage` of its old image and the new one: the new image when the sizes are equal, the old image unchanged when the new grid is wider or taller. |
| `LercTileSource.TileImage` | src/source/lerc_tile_source.js:97-107 | The uploaded canvas is `width × height`, the grid's size, and the normalised buffer fills it exactly. |
| `LercTileSource.Request.Abort` | src/source/lerc_tile_source.js:156 | Aborting the pending fetch is counted: each call adds exactly one to the request's abort count. |
| `LercTileSource.LercSource.AbortTile` | src/source/lerc_tile_source.js:154-159 | A pending request is aborted once and deleted. Without one nothing happens. The texture and state are never touched. |
| `LercTileSource.LercSource.UnloadTile` | src/source/lerc_tile_source.js:161-163 | An existing texture is appended to the pool and kept on the tile. Nothing else changes. |
| `Gpu.Painter.CreateTexture` | src/source/lerc_tile_source.js:136 | The new handle is numbered by the creation count and holds no image yet. |
| `Gpu.Painter.TexImage2D` | src/source/lerc_tile_source.js:142 | The full upload gives the texture the image, size included. |
| `Gpu.Painter.TexSubImage2D` | src/source/lerc_tile_source.js:146-147 | The sub-image upload leaves the bound texture holding `SubImage` of its old image and the uploaded one, and changes no texture when none with an image is bound. |
| `Gpu.SubImage` | src/source/lerc_tile_source.js:147 | A sub-image upload at (0, 0) never changes a texture's size. |
| `Gpu.SubImagePixel` | src/source/lerc_tile_source.js:147 | Channel `c` of texture pixel `(x, y)` after the upload is the uploaded image's pixel `(x, y)` when that image fits and covers the pixel, and the old byte otherwise, including every byte when the image is too large. |
| `Gpu.SubImageSameSize` | src/source/lerc_tile_source.js:147 | An upload of the texture's own size replaces its image entirely. |
| `Gpu.SubImageFirstPixel` | src/source/lerc_tile_source.js:147 | After an upload that fits, the texture's first pixel is the uploaded image's first pixel. |
| `Gpu.SubImageRowEnd` | src/source/lerc_tile_source.js:147 | A narrower upload leaves the last pixel of the texture's first row as it was. |
| `Gpu.Painter.SaveTileTexture` | src/source/lerc_tile_source.js:162 | The texture is appended to the pool. |
| `LercTileSource.AbortRaceScenario` | src/source/lerc_tile_source.js:80-88 | A tile marked aborted, then aborted twice and then completed: the abort is called once, the callback gets null, nothing is created or uploaded, and the tile keeps its state and has no texture. |
| `LercTileSource.RefreshScenario` | src/source/lerc_tile_source.js:134-163 | Two completions of the same size on one tile give one creation, one full upload and one sub-upload, on the same handle, which holds the second image. Unloading pools that handle. |
| `LercTileSource.LargerRefreshScenario` | src/source/lerc_tile_source.js:134-149 | When the second completion decodes to a wider or taller grid, the sub-upload is refused and the texture still holds the first image. |
| `LercTileSource.SmallerRefreshScenario` | src/source/lerc_tile_source.js:134-149 | When the second completion decodes to a narrower grid of the same height, the texture keeps the first size. Its first pixel is the new one, and the last pixel of its first row is still the first load's. |
| `LercTileSource.ReloadScenario` | src/source/lerc_tile_source.js:134-142 | A loaded tile whose state the host changes gets a second new texture on its next completion. The first handle is not pooled. |

## Left out

- Network fetch (`ajax.getArrayBuffer`), the tile JSON bootstrap (`load`, `onAdd`) and the `fire` events: I/O and the event bus. Only the completion's `(err, data)` arguments are modelled, and `LoadTile` takes the normalised URL as a parameter.
- The LERC decoder (line 96): a foreign codec. Its result is an input, either a decoded grid of band 0 (width, height, statistics[0], pixels[0], mask) or a throw.
- Decoder output with an empty `statistics` or `pixels` array, which would raise a TypeError, is not represented: the grid always carries band 0.
- `normalizeURL`, `tile.coord.url` and `TileBounds` with its `contains` test: external helpers. `contains` is a function parameter of `HasTile`, and the bounds object is a record of its constructor arguments.
- `console.log`, `setExpiryData` and the deletion of cache fields (lines 123-127): logging and host bookkeeping outside the modelled state. The upload source is always a canvas, so the `instanceof` test at line 145 always holds.
- LercTileSource.LercSource.Done: the texture receives the canvas after `putImageData` (line 121), not the ImageData buffer, and the model equates the two. That holds only up to the canvas round trip: a canvas may keep colour premultiplied by alpha, so the colour bytes of a pixel with alpha 0 can come back as 0. The colour of transparent pixels is not modelled; the contracts about texture bytes are exact for opaque pixels (alpha 255) and for every alpha byte.
- LercTileSource.LercSource.Done: the texture parameters set at lines 137-141 (edge clamp, linear filtering) are not recorded by the painter.
- Normalize.Luminance: arithmetic is exact on reals. The IEEE rounding of `256/(max-min)` and of the product is not modelled, and samples are finite (no NaN samples).
- LercTileSource.LercSource.Done: `this.map.painter` is passed in as a parameter, so the TypeError raised when the map is not yet set is not modelled.
- Mask values are bytes. Any non-zero entry counts as present.
- LercTileSource.LercSource.constructor: an option is either absent or has a value. `util.pick` (src/util/util.js is not part of this model) also copies a key that is present with the value `undefined`, which then replaces the default with `undefined`; that case is not modelled.
