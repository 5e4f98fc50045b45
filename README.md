# Picture: a verified model of an RGB raster and its transforms

This project models the `Picture` class of `src/picture/Picture.java`. A picture is a
width x height raster of opaque RGB colours. It supports bounds-checked pixel reads and
writes, structural equality and a 32-bit polynomial hash. Its transforms (invert, grayscale,
the three rotations, the two flips, blur, blend and mosaic) each allocate a new picture
and fill it pixel by pixel with nested `x` / `y` loops.

The model has two layers:

- **Values.** `Images.Image` is a picture as a value: width, height and column-major
  pixels. Every transform is specified as a function on these values, in `Tones` (invert,
  grayscale), `Geometry` (rotations, flips), `Filters` (blur) and `Composite` (blend,
  mosaic). They come with lemmas for their laws: inverse, involution, composition,
  idempotence, fixed points, truncated means and error cases.
- **The class.** `Pictures.Picture` wraps a `const store: array2<Color>`, the raster
  that Java keeps in a `BufferedImage`. `SetPixel` writes a cell in place. Each Java
  method becomes a Dafny method with the same loops, the same reads and the same writes,
  in the same order. Each is proved to produce the matching value function applied to
  `Contents()`, the picture as a value: for example, `Invert` produces
  `Tones.Invert(Contents())`. The multi-input operations take a `seq<Picture>` (the Java
  `List<Picture>`). They are proved against the value functions applied to
  `Snapshot(inputs)`, the inputs' contents.

Supporting modules:

- `Colors`: the colour datatype, and the packing of a colour into the 32-bit integer
  `0xffRRGGBB` that `setPixel` writes and `getRGB` returns.
- `JavaLang`: Java `int` wrap-around, `/` (rounding toward zero), `%` (taking the sign
  of the dividend), and the exceptions the code can raise, as a `Result`.
- `Hashing`: the hash fold.
- `Arithmetic`: facts about products and quotients.

Error cases, as the code behaves:

- **Empty list.** `blend` and `mosaic` on an empty list throw
  `IndexOutOfBoundsException` from `pictures.get(0)` (line 187), modelled as
  `Err(IndexOutOfBounds)`.
- **Tile size.** A non-positive tile size is not rejected up front.
  - A zero tile size throws `ArithmeticException` at `minWidth % tileSize` (line 357),
    modelled as `Err(DivisionByZero)`.
  - A negative tile size runs on, with Java's `/` rounding toward zero. When some pixel
    of the cropped extent gets a negative input index, the first `inputs.get` on one of
    them throws (line 367), modelled as `Err(IndexOutOfBounds)`
    (`Composite.MosaicThrowsOnNegativeTile`). With two or more inputs and room for two
    tile columns this always happens (`Composite.MosaicNegativeTileSizeThrows`). A
    single input at least one tile across and down gets index 0 everywhere and succeeds
    (`Composite.MosaicNegativeTileSizeSingle`).
- **Empty extent.** A minimum extent smaller than one tile (of `|tileSize|` pixels)
  leaves a side of 0. `new Picture(0, …)` then fails, because `BufferedImage` refuses a
  zero size (line 27). This is modelled as `Err(IllegalArgument)`, and it is checked
  before any negative index is reached.

## Model

| member | source | states |
|---|---|---|
| Pictures.Picture.constructor | src/picture/Picture.java:26-28 | a new picture has the given width and height and every pixel black |
| Pictures.Picture.Contents | src/picture/Picture.java:104-107 | the picture as a value agrees with getPixel at every coordinate and has the picture's width and height |
| Pictures.Picture.Contains | src/picture/Picture.java:49-51 | the point lies within the picture: 0 <= x < width and 0 <= y < height, the precondition of every pixel access (related to the value by `ContainsIffInBounds`) |
| Pictures.Picture.Width | src/picture/Picture.java:114-116 | the raster's width; `Contents()` has this width |
| Pictures.Picture.Height | src/picture/Picture.java:91-93 | the raster's height; `Contents()` has this height |
| Pictures.Picture.GetPixel | src/picture/Picture.java:104-107 | the colour stored at (x, y), defined only where `Contains(x, y)`; it equals getPixel's decoding of the packed value there because `SetPixel` stores `Unpack(Pack(rgb))`, which `UnpackPack` proves is `rgb` |
| Pictures.ContainsIffInBounds | src/picture/Picture.java:49-51 | contains(x, y) holds exactly when 0 <= x < width and 0 <= y < height |
| Pictures.Picture.SetPixel | src/picture/Picture.java:149-158 | after setPixel(x, y, c), getPixel(x, y) returns c (the `0xff` masks recover each channel), and every other pixel is unchanged |
| Colors.Pack | src/picture/Picture.java:151-157 | the packed ARGB value with alpha 0xff is a negative Java int |
| Colors.Unpack | src/picture/Picture.java:105-106 | the channels `(v >> 16) & 0xff`, `(v >> 8) & 0xff` and `v & 0xff`; `UnpackPack` proves it inverts `Pack` |
| Colors.UnpackPack | src/picture/Picture.java:104-107 | getPixel's shifts and masks decode setPixel's packing back to the same colour |
| Colors.PackInjective | src/picture/Picture.java:78 | two packed values are equal exactly when the colours are, so comparing getRGB compares colours |
| Colors.Color.Invert | src/picture/Picture.java:208 | every channel of the inverted colour is 255 minus the original channel |
| Pictures.Picture.Equals | src/picture/Picture.java:59-84 | equals is true exactly when the other picture is non-null and has the same contents; the loop's early exit is sound because packing is injective |
| Images.EqualIff | src/picture/Picture.java:71-83 | two pictures are equal exactly when width, height and every pixel agree, so a different width or height means not equal |
| Pictures.Picture.HashCode | src/picture/Picture.java:118-130 | hashCode is the 32-bit column-major fold `h = 31 * h + getRGB(i, j)`, a function of the contents alone, so equal pictures hash equally |
| Hashing.HashColumn | src/picture/Picture.java:125-127 | the fold `h = 31 * h + getRGB(i, j)` down one column from the top, wrapped to 32 bits at every step |
| Hashing.HashColumns | src/picture/Picture.java:124-128 | the column fold applied to the columns from the left, starting from 0 |
| Hashing.Hash | src/picture/Picture.java:123-129 | the hash of a picture value; `HashCode` computes it and `HashIsExactModulo` relates it to the exact polynomial |
| Hashing.HashIsExactModulo | src/picture/Picture.java:123-129 | the wrapped hash differs from the exact polynomial hash by a multiple of 2^32 |
| Hashing.ColumnsCongruent | src/picture/Picture.java:124-128 | after any number of columns the wrapped fold equals the exact fold plus a multiple of 2^32 |
| Hashing.ColumnCongruent | src/picture/Picture.java:125-127 | within one column the wrapped fold stays congruent to the exact fold modulo 2^32 |
| Hashing.StepCongruent | src/picture/Picture.java:126 | one wrapped step `31 * h + v` is congruent to the exact step modulo 2^32 |
| JavaLang.Wrap | src/picture/Picture.java:126 | the wrapped value is an int32, differs from the exact value by a multiple of 2^32, and equals it when it fits |
| JavaLang.Div | src/picture/Picture.java:366 | Java's integer division agrees with mathematical division on a nonnegative dividend and positive divisor, and is nonnegative there |
| JavaLang.Rem | src/picture/Picture.java:357 | Java's remainder is smaller in magnitude than the divisor, takes the dividend's sign, and on a nonnegative dividend is the ordinary remainder |
| JavaLang.DivRem | src/picture/Picture.java:366 | Java's division identity `(a / b) * b + a % b == a` holds for the truncating operators |
| Pictures.Picture.GetMinimumDimensions | src/picture/Picture.java:184-200 | an empty list throws at `get(0)`; otherwise the result is the least width and the least height over the list, which bound every input |
| Images.MinDims | src/picture/Picture.java:184-200 | the result bounds every width and every height from below, and each of them is attained by some input |
| Images.MinDimsIsLeast | src/picture/Picture.java:189-198 | a lower bound on all widths and heights that some inputs attain is exactly MinDims |
| Tones.Invert | src/picture/Picture.java:202-212 | invert keeps the extent and complements every pixel |
| Pictures.Picture.Invert | src/picture/Picture.java:202-212 | the new picture holds Tones.Invert of the contents |
| Tones.InvertInvolution | src/picture/Picture.java:202-212 | inverting twice gives back the original picture |
| Tones.Gray | src/picture/Picture.java:219-221 | the gray colour has equal channels, each the truncated mean of r, g and b |
| Tones.Grayscale | src/picture/Picture.java:214-225 | grayscale keeps the extent and maps every pixel to its gray |
| Pictures.Picture.Grayscale | src/picture/Picture.java:214-225 | the new picture holds Tones.Grayscale of the contents |
| Tones.GrayscaleIdempotent | src/picture/Picture.java:214-225 | grayscale applied twice equals grayscale applied once |
| Geometry.Rotate90 | src/picture/Picture.java:227-237 | the result is height x width, and input pixel (x, y) lands in bounds at (height - 1 - y, x) |
| Pictures.Picture.Rotate90 | src/picture/Picture.java:227-237 | the new picture holds Geometry.Rotate90 of the contents; every write is in bounds |
| Geometry.Rotate180 | src/picture/Picture.java:239-250 | the extent is kept, and pixel (x, y) comes from (width - 1 - x, height - 1 - y), which is in bounds |
| Pictures.Picture.Rotate180 | src/picture/Picture.java:239-250 | the new picture holds Geometry.Rotate180 of the contents |
| Geometry.Rotate270 | src/picture/Picture.java:252-262 | the result is height x width, and input pixel (x, y) lands in bounds at (y, width - 1 - x) |
| Pictures.Picture.Rotate270 | src/picture/Picture.java:252-262 | the new picture holds Geometry.Rotate270 of the contents; every write is in bounds |
| Geometry.Rotate270UndoesRotate90 | src/picture/Picture.java:227-262 | rotate270 after rotate90 is the identity |
| Geometry.Rotate90UndoesRotate270 | src/picture/Picture.java:227-262 | rotate90 after rotate270 is the identity |
| Geometry.Rotate90Twice | src/picture/Picture.java:227-250 | two quarter turns are rotate180 |
| Geometry.Rotate180Involution | src/picture/Picture.java:239-250 | two half turns are the identity |
| Geometry.Rotate90FourTimes | src/picture/Picture.java:227-237 | four quarter turns are the identity |
| Geometry.FlipHorizontal | src/picture/Picture.java:264-273 | the extent is kept, and pixel (x, y) comes from (width - 1 - x, y) |
| Pictures.Picture.FlipHorizontal | src/picture/Picture.java:264-273 | the new picture holds Geometry.FlipHorizontal of the contents |
| Geometry.FlipVertical | src/picture/Picture.java:275-284 | the extent is kept, and pixel (x, y) comes from (x, height - 1 - y) |
| Pictures.Picture.FlipVertical | src/picture/Picture.java:275-284 | the new picture holds Geometry.FlipVertical of the contents |
| Geometry.FlipHorizontalInvolution | src/picture/Picture.java:264-273 | flipping horizontally twice is the identity |
| Geometry.FlipVerticalInvolution | src/picture/Picture.java:275-284 | flipping vertically twice is the identity |
| Geometry.Rotate180IsBothFlips | src/picture/Picture.java:239-284 | rotate180 equals flipHorizontal after flipVertical |
| Geometry.FlipsCommute | src/picture/Picture.java:264-284 | the two flips commute |
| Composite.ChannelSum | src/picture/Picture.java:301-309 | the running channel total over the inputs lies between 0 and 255 times their number |
| Composite.MeanColor | src/picture/Picture.java:310-311 | each channel is the input total divided by the number of inputs (`MeanColorIsMean` proves it is the truncated mean) |
| Composite.MeanColorIsMean | src/picture/Picture.java:310-311 | each channel m of the mean colour satisfies n * m <= total < n * (m + 1): the truncated mean |
| Composite.Blend | src/picture/Picture.java:286-316 | an empty list throws IndexOutOfBounds; otherwise the result has the minimum width and height, every input contains every output coordinate, and every pixel is the mean colour there |
| Pictures.Picture.Blend | src/picture/Picture.java:286-316 | the outcome, error or new picture, is Composite.Blend of the inputs' contents |
| Pictures.Picture.MeanPicture | src/picture/Picture.java:297-314 | the width x height output holds the mean colour of the inputs at every pixel, and every input contains every such coordinate |
| Pictures.Picture.AveragePixel | src/picture/Picture.java:301-311 | the per-channel totals over the inputs, divided by their number, give the mean colour at (x, y) |
| Composite.BlendIsMean | src/picture/Picture.java:299-314 | every channel of every blended pixel is the truncated mean of that channel over the inputs |
| Composite.BlendCopies | src/picture/Picture.java:286-316 | blending any number of copies of a picture gives that picture |
| Composite.BlendSingle | src/picture/Picture.java:286-316 | blending a single picture returns it |
| Composite.BlendTwoUniform | src/picture/Picture.java:310-311 | blending two uniform pictures gives the uniform picture of the channel-wise truncated means |
| Composite.BlendBlackWhite | src/picture/Picture.java:310-311 | black blended with white is (127, 127, 127), the truncated 127.5 |
| Composite.BlendExample | src/picture/Picture.java:310-311 | (10, 20, 30) blended with (20, 30, 40) is (15, 25, 35) |
| Filters.Interior | src/picture/Picture.java:325 | the border test: 0 < x < width - 1 and 0 < y < height - 1 |
| Filters.ColumnSum | src/picture/Picture.java:332-337 | a partial neighbourhood column sums to between 0 and 255 per pixel read |
| Filters.WindowSum | src/picture/Picture.java:331-338 | whole neighbourhood columns sum to between 0 and 765 per column |
| Filters.BoxSum | src/picture/Picture.java:331-338 | the 3x3 neighbourhood total of a channel lies in 0 .. 9 * 255 |
| Filters.BlurAt | src/picture/Picture.java:325-345 | a border pixel is copied; each channel c of an interior pixel satisfies 9 * c <= total < 9 * c + 9 |
| Filters.Blur | src/picture/Picture.java:318-349 | blur keeps the extent, copies every border pixel, and sets every interior channel to the truncated ninth of its neighbourhood total |
| Pictures.Picture.Blur | src/picture/Picture.java:318-349 | the new picture holds Filters.Blur of the contents |
| Pictures.Picture.BlurPixel | src/picture/Picture.java:325-345 | the pixel written at (x, y) is the blur rule's value there |
| Pictures.Picture.NeighbourhoodTotals | src/picture/Picture.java:326-338 | the dx / dy loops total each channel over the 3x3 neighbourhood, reading only inside the picture |
| Filters.BlurUniform | src/picture/Picture.java:318-349 | a picture of one colour is a fixed point of blur |
| Filters.BlurThin | src/picture/Picture.java:325 | a picture less than 3 wide or high is all border, so blur returns it unchanged |
| Composite.TileIndex | src/picture/Picture.java:366 | the index is below the number of inputs, and for a positive tile size it is (x / tileSize + y / tileSize) % n |
| Composite.CropToTiles | src/picture/Picture.java:357-359 | m - m % tileSize is a multiple of the tile size within one tile of m, and it is 0 exactly when m is below one tile |
| Composite.Mosaic | src/picture/Picture.java:351-372 | the error cases in order (empty list, zero tile size, no whole tile across or down); for a positive tile size, success exactly when a tile fits, dimensions cropped to whole tiles, and pixel (x, y) copied from input (x / tileSize + y / tileSize) % n, in bounds |
| Composite.Tiles | src/picture/Picture.java:361-370 | once every index is valid, the output pixel at (x, y) is the chosen input's pixel at (x, y) |
| Composite.TiledFormula | src/picture/Picture.java:366-368 | for a positive tile size the chosen input is (x / tileSize + y / tileSize) % n and contains (x, y) |
| Pictures.Picture.Mosaic | src/picture/Picture.java:351-372 | the outcome, error or new picture, is Composite.Mosaic of the inputs' contents |
| Pictures.Picture.TilePicture | src/picture/Picture.java:361-371 | every pixel is copied from its tile's input at the same coordinate, or the loop throws IndexOutOfBounds and some pixel has a negative index |
| Composite.MosaicSingle | src/picture/Picture.java:351-372 | a single input whose sides are whole numbers of tiles comes back unchanged |
| Composite.MosaicThrowsOnNegativeTile | src/picture/Picture.java:367 | a negative index anywhere in the cropped extent makes mosaic throw IndexOutOfBounds |
| Composite.NegativeTileWitness | src/picture/Picture.java:366 | with a negative tile size and at least two inputs, pixel (-tileSize, 0) gets index -1 |
| Composite.MosaicNegativeTileSizeThrows | src/picture/Picture.java:366-367 | a negative tile size with two or more inputs and room for two tile columns throws |
| Composite.MosaicNegativeTileSizeSingle | src/picture/Picture.java:366-367 | a negative tile size with a single input at least one tile across and down succeeds |

## Left out

- The file constructor `Picture(String)` and `saveAs` (lines 33-39, 132-138): they read or write image files through `ImageIO`.
- The null-image branches of `equals` and `hashCode` (lines 68-69, 120-122): the image is null only when a file fails to decode, and file loading is left out.
- `toString` (lines 163-182): formatting only.
- `src/picture/PictureProcessor.java` is not part of this model: it parses command-line arguments and loads and saves files.
- The `Color` class is not among the repository files. The model takes its channels as integers in 0..255 and its `invert()` as 255 minus each channel.
- The raster holds colours, not packed integers. `SetPixel` stores what a read of the packed value gives back (`Unpack(Pack(rgb))`). `Equals` and `HashCode` read the packed value `Pack`, as `getRGB` returns it.
- Pictures.Picture.constructor: takes `nat` sizes and accepts a width or height of 0. `BufferedImage` throws `IllegalArgumentException` for sizes <= 0. The only place that refusal can be reached from pictures that exist is mosaic's cropped extent, and there it is modelled as `Err(IllegalArgument)`.
- Pictures.Picture.SetPixel: a coordinate outside the picture is excluded by `requires Contains(x, y)`, not modelled as the `ArrayIndexOutOfBoundsException` that its Javadoc names (lines 146-147). The same holds for `GetPixel` (lines 101-102). No modelled operation makes such a call.
- Pictures.Picture.Equals: takes a `Picture?`. An argument of another class, which `instanceof` rejects with false, is not modelled.
- Pictures.Picture.AveragePixel: the channel totals are unbounded integers. Java's `int` totals would overflow only past about 8.4 million inputs.
- Loop structure: the loop bodies of blend, blur and mosaic are factored into helper methods with the same reads and writes in the same order:
  - blend into `MeanPicture` and `AveragePixel`
  - blur into `BlurPixel` and `NeighbourhoodTotals`
  - mosaic into `TilePicture`
- Exception types: an exception is an `Error` value and nothing more. `IndexOutOfBounds` covers the exceptions `List.get` throws.
