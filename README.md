# Watermark compositing, modelled in Dafny

The program reads a base image and a watermark image and checks that both are RGB images
with 24 or 32 bits per pixel. It checks that the watermark fits inside the base, then picks
a transparency strategy: the watermark's alpha channel, a key colour, or neither. Next it
reads a blend percentage and a placement method. Single placement puts the watermark at one
checked offset. Grid placement tiles it from (0, 0) with its own width and height as the
step. Each covered pixel is blended with truncating integer arithmetic. Finally the result
is written to a `.jpg` or `.png` file. Every check that fails ends the run with its own
error, and nothing is written.

The model has one module per part of that pipeline:

- `Errors` (errors.dfy): the error kinds and the `Option` and `Result` types.
- `Text` (text.dfy): digit runs, Kotlin's `toIntOrNull` / `toInt` with 32-bit overflow,
  `split`, and `lowercase`, with their round-trip lemmas.
- `Pixels` (pixels.dfy): channels, colours, the transparency `Mode`, and the per-pixel
  blend (the `when` of `addWatermark`).
- `Compositor` (compositor.dfy): `addWatermark` as a method over `array2` with nested loops
  into a fresh output, and the grid placement as a loop that rebinds the output tile by
  tile. Both are proved against per-pixel specification functions (`Composite`,
  `GridPixel`), and lemmas about these functions cover disjoint tiles, tile order and
  refusal.
- `Parameters` (parameters.dfy): the checks on the key colour, percentage, method, position
  and file name replies.
- `Images` (images.dfy): the image format check, and transparency resolution as a method
  that updates the two variables step by step, as `main` does.
- `Watermark` (watermark.dfy): the whole run, `Run`, with the error order of `main`.

Images are `array2` values indexed `[x, y]`: `Length0` is the width and `Length1` the
height. Base and output pixels are `Rgb`. The base image's own alpha is never read, because
`Color(getRGB(x, y))` discards it. Watermark pixels are `Argb`. When the watermark is read
without its alpha channel, the model gives the pixel alpha 255, just as
`Color(rgb, false)` does. Where the source keeps a transparency constant and a nullable key
colour, the model keeps one `Mode` value: `AlphaChannel`, `ColorKey(key)` or
`NoTransparency`.

The grid loop in `main` runs over x outside y, so tiles are applied column by column and,
within a column, top to bottom. The model keeps that order. `Compositor.TilesCommute` shows
that swapping two tiles changes nothing, so a row-by-row order would give the same image.
The source has separate errors for a position reply that does not match the pattern and
for one that is out of range, and the model keeps both.

The model reads every watermark pixel at `(x - pos.x, y - pos.y)`, and the
verifier's array-bounds checks in `AddWatermark` prove this index is always inside the
watermark.

## Model

| member | source | states |
|---|---|---|
| `Images.ValidateImage` | Main.kt:15-16 | an image is accepted exactly when it has 3 colour components and 24 or 32 bits per pixel; otherwise the error names the failed check, component count first, and the image's role |
| `Images.ResolveTransparency` | Main.kt:64-74 | alpha mode exactly when the watermark is translucent and the reply lowercases to "yes"; a key colour exactly when it is not translucent, the reply is exactly "yes" and the colour parses, and then the key is that colour; an error exactly when the colour was asked for and fails, with that colour's error; never both modes |
| `Text.ToIntOrNull` | Main.kt:77-78 | a reply reads as a number only when it is an optional `+` or `-` followed by ASCII digits, and the number always fits a 32-bit `Int` |
| `Text.ToIntOrNullDigits` | Main.kt:77-78 | a digit run, bare, after `+` or after `-`, reads as its value (negated after `-`) whenever that fits an `Int`, leading zeros included, and as null otherwise |
| `Text.ToIntOrNullShow` | Main.kt:78 | the decimal text of an `Int`, with or without `+`, reads back as itself, and so does a negated one down to -2^31; a value beyond `Int` reads as null, with or without a sign |
| `Text.LowerIsYes` | Main.kt:67 | a reply lowercases to "yes" exactly when it is y/Y, e/E, s/S in that order |
| `Text.JoinSplit` | Main.kt:71 | joining the pieces of `split` gives back the string |
| `Text.SplitJoin` | Main.kt:71 | splitting pieces that hold no separator, after joining them, gives back the pieces |
| `Text.ShowValue` | Main.kt:71 | the decimal text of a number has that number as its digit value |
| `Text.Split` | Main.kt:71 | `split(" ")` yields at least one piece and no piece holds a space; with `JoinSplit` and `SplitJoin`, joining the pieces restores the reply and splitting a join restores the pieces, empty ones included |
| `Text.Lower` | Main.kt:67 | lowercasing keeps the length and maps each character on its own; with `LowerIsYes`, exactly the eight case spellings of "yes" lowercase to "yes" |
| `Pixels.Mix` | Main.kt:41-43 | a blended channel lies between the watermark and base channels, so it is always a valid 0..255 channel |
| `Pixels.Blend` | Main.kt:38-46 | an error exactly when the watermark pixel as read is partially transparent, and then `InvalidWatermarkImage`; no watermark pixel keeps the base colour; otherwise every channel lies between the watermark's and the base's |
| `Pixels.SkipKeepsBase` | Main.kt:37-39 | a fully transparent pixel in alpha mode, or a key-coloured pixel in key mode, keeps every base colour |
| `Pixels.OpaqueIsMixed` | Main.kt:40-44 | an opaque, non-key pixel yields the truncating weighted mix; weight 0 gives the base colour, weight 100 the watermark colour |
| `Pixels.HalfOfWhiteOnBlack` | Main.kt:41-43 | weight 50 of white on black gives 127 in every channel (truncation, not rounding) |
| `Pixels.RefusedIffPartialAlpha` | Main.kt:37-45 | a watermark pixel is refused exactly in alpha mode with alpha 1..254, for every base colour and weight; no other mode refuses anything |
| `Pixels.ReadWatermark` | Main.kt:37 | a watermark pixel keeps its stored alpha only in alpha mode and is read as opaque otherwise; with `RefusedIffPartialAlpha` and `SkipKeepsBase`, no pixel is refused outside alpha mode, and alpha 0 keeps the base colour in alpha mode |
| `Compositor.CompositeCases` | Main.kt:34-46 | outside the footprint the base colour is kept; a pixel is refused exactly inside the footprint, in alpha mode, over a partially transparent watermark pixel |
| `Compositor.Composite` | Main.kt:33-46 | the output pixel of one `addWatermark` call; with `CompositeCases`, outside the footprint it is the base colour, and it is refused exactly inside the footprint, in alpha mode, over a partially transparent watermark pixel |
| `Compositor.AddWatermark` | Main.kt:20-51 | on success a freshly allocated image of the base's size whose every pixel is the blend at that coordinate; on failure `InvalidWatermarkImage` and some coordinate whose blend is refused; the base and the watermark are not modified |
| `Compositor.SingleExample` | Main.kt:29-49 | a 4×4 black base under a 2×2 opaque white watermark at (1, 1) with weight 50 stays black except for the 2×2 block, which becomes (127, 127, 127) |
| `Compositor.TileColumn` | Main.kt:101-102 | a coordinate inside tile k's footprint has tile number coordinate / size, and its offset in the tile is coordinate mod size |
| `Compositor.TilesDisjoint` | Main.kt:101-106 | no coordinate lies in the footprints of two different grid tiles |
| `Compositor.GridIsTiledSingle` | Main.kt:100-108 | each grid pixel is what single placement at the tile containing it yields |
| `Compositor.GridPixel` | Main.kt:100-108 | the pixel of the finished grid; with `GridIsTiledSingle`, it is single placement at the tile containing the pixel, and `GridPlacement`'s loop yields it at every pixel |
| `Compositor.TilesCommute` | Main.kt:101-107 | applying two grid tiles in either order gives the same pixel, for every colour under it |
| `Compositor.TileStep` | Main.kt:103-106 | one tile keeps the pixels of tiles already done, and blends the pixels of its own footprint, which still hold the base colour, with the watermark at their coordinate mod its size |
| `Compositor.TileRefusal` | Main.kt:103-106 | a pixel that one tile refuses is a pixel the finished grid refuses, whatever colour lies under it |
| `Compositor.GridPlacement` | Main.kt:100-108 | on success a freshly allocated image of the base's size whose every pixel (x, y) is the base colour blended exactly once with watermark pixel (x mod width, y mod height); on failure `InvalidWatermarkImage` and some pixel of the grid that is refused; the first tile, applied to the base itself, matches the general case |
| `Compositor.SingleRefusedIffPartialAlpha` | Main.kt:30-45 | with the footprint inside the base, single placement is refused exactly in alpha mode with a partially transparent watermark pixel |
| `Compositor.GridRefusedIffPartialAlpha` | Main.kt:101-106 | with the watermark no larger than the base, the grid is refused exactly in alpha mode with a partially transparent watermark pixel |
| `Parameters.ParseColor` | Main.kt:69-73 | an accepted colour reply matches `\d+ \d+ \d+`, and a reply that does not match is `InvalidTransparencyColor`; every failure is `InvalidTransparencyColor` or, for a value beyond `Int`, `NumberFormat` |
| `Parameters.ColorPatternShape` | Main.kt:70 | three space-free pieces joined by single spaces match the colour pattern exactly when each is a digit run |
| `Parameters.MatchedColorShape` | Main.kt:70-71 | a reply matching the colour pattern is its three pieces joined by single spaces |
| `Parameters.MatchesColor` | Main.kt:70 | the pattern `\d+ \d+ \d+`; with `ColorPatternShape` and `MatchedColorShape`, a reply matches exactly when it is three digit runs joined by single spaces |
| `Parameters.ParseColorDigits` | Main.kt:70-72 | on three digit runs the colour is accepted exactly when each value is at most 255, and is those values; `NumberFormat` exactly when a value is beyond `Int` |
| `Parameters.ParseColorShow` | Main.kt:69-73 | a colour written as three decimal channels separated by spaces reads back as that colour |
| `Parameters.ParsePercentage` | Main.kt:77-79 | an accepted percentage is the `toIntOrNull` value of the reply; the reply is `NumberFormat` exactly when `toIntOrNull` rejects it; every reply `toIntOrNull` reads as 0..100 is accepted as that value, in any spelling; the other failures are `InvalidTransparencyPercentage` |
| `Parameters.ParsePercentageShow` | Main.kt:77-79 | every 0..100 written in decimal, with or without `+`, is accepted as itself; larger or negative `Int` values are out of range; values beyond `Int` are `NumberFormat` |
| `Parameters.ParseMethod` | Main.kt:82-83 | single placement exactly for "single", grid exactly for "grid", `InvalidPositionMethod` otherwise |
| `Parameters.ParsePosition` | Main.kt:86-91 | an accepted position matches `-?\d+ -?\d+` and satisfies 0 ≤ x ≤ maxX and 0 ≤ y ≤ maxY, so the footprint lies inside the base; a reply not matching the pattern is `InvalidPositionInput` |
| `Parameters.MatchesPosition` | Main.kt:89 | the pattern `-?\d+ -?\d+`, two optionally negated digit runs separated by one space; `PositionOfParts` reads a matching reply piece by piece |
| `Parameters.PositionOfParts` | Main.kt:89-91 | a reply made of two signed digit runs, in any spelling, is `NumberFormat` when either does not fit an `Int`, and otherwise is accepted as those values exactly when both lie in range, `InvalidPosition` when not |
| `Parameters.ParsePositionShow` | Main.kt:88-91 | every in-range position written as two decimal numbers reads back as itself |
| `Parameters.ParsePositionOutOfRange` | Main.kt:89-91 | for coordinates written in decimal without leading zeros and fitting an `Int`: a coordinate above its maximum, or a negative coordinate (minus sign on the first, the second or both), is `InvalidPosition`; a coordinate beyond `Int` written without a sign is `NumberFormat`, since `toInt` fails before the range check |
| `Parameters.ParseFileName` | Main.kt:112-117 | an accepted name is some stem, a dot, and the format it returns, which is `jpg` or `png`; otherwise `InvalidFileName` |
| `Parameters.FileNameParts` | Main.kt:113 | `stem.ext` is accepted with format `ext` exactly when the stem is non-empty, holds no line terminator, and `ext` is `jpg` or `png` |
| `Parameters.MatchesFileName` | Main.kt:113 | the whole-name pattern: at least one character that is not a line terminator, a dot, then `jpg` or `png`; with `FileNameParts`, `stem.ext` matches exactly when the stem is non-empty, has no line terminator, and ext is jpg or png |
| `Watermark.Run` | Main.kt:53-121 | the run ends with the error of the first failing step, in the order of `main`: base format, watermark format, dimensions, key colour (only when asked), percentage, method, position (only for single placement), a refused pixel (only in alpha mode with a partially transparent watermark pixel), file name; it succeeds exactly when no step fails. A success used the resolved mode (alpha exactly when translucent and "yes" in any case, a key colour exactly when not translucent and exactly "yes", and then the parsed colour), the parsed percentage, method and position and a valid file name, and yields a fresh image of the base's size equal to the single or grid blend at every pixel |
| `Watermark.FirstError` | Main.kt:56-113 | the error of the first failing step in `main`'s order, or none; `Run` ends with exactly this error and succeeds exactly when it is none |

## Left out

- File and console I/O is not modelled: the prompts, `readln`, `File.exists`, `ImageIO.read`
  and `ImageIO.write`. The images arrive decoded, the replies arrive as strings, and `Run`
  returns what would be written. The missing-file error (`InExistentFileException`) is
  therefore absent.
- `java.awt.Color` and `BufferedImage` internals are not modelled: ARGB packing, colour
  models, how the output image type stores pixels, and how an image's transparency kind is
  derived. An image's component count, bits per pixel and transparency kind are plain
  fields of `ImageInfo`.
- Pixel contents and image dimensions are kept independent of `ImageInfo`. The model does
  not tie a 24-bit image to having no alpha values, for example.
- Images are taken to be at least one pixel wide and high (`Run`'s requires), as every
  decoded `BufferedImage` is.
- Exception message texts and the catch-all print at the end of `main` are not modelled;
  only the error kinds are.
- Text.Lower: handles only the ASCII letters; the rest of Unicode case mapping in Kotlin's
  `lowercase()` is not modelled.
- Text.ToIntOrNull: reads only the ASCII digits `0`-`9`; Kotlin also accepts other Unicode
  decimal digits. The digit class `\d` of the reply patterns is ASCII-only in Java, so the
  colour and position checks are exact.
- The lossy JPEG encoding of the written file is not modelled.
- Compositor.TilesCommute: shows that any two grid tiles can be swapped. Independence from
  the whole tile order follows from `GridPlacement`'s per-pixel result, which does not
  mention the order; it is not stated as a fold over arbitrary tile sequences.
