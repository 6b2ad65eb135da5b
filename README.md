# Dimensionality reduction of images, modelled in Dafny

`reducao_dimensionalidade.py` reduces a colour image to grey levels (0 to 255) and then to a
binary black-and-white image (0 and 255). It saves both as raw binary PGM ("P5") files. This
project models that pipeline and proves what each step promises:

- **Pixels** (`pixels.dfy`): `rgb_to_grayscale` as an exact integer luma truncated toward
  zero, and `grayscale_to_binary` as an inclusive threshold, 128 by default.
- **Pipeline** (`pipeline.dfy`): the grey pass and the binary pass. Each is a loop method
  proved against a specification function (`GrayscaleOf`, `BinaryOf`). Lemmas give length,
  pointwise correspondence, the {0, 255} range, idempotence and the behaviour at extreme
  thresholds.
- **Pgm** (`pgm.dfy`): `create_simple_image` as the byte stream the file receives. That is
  the ASCII header `"{type}\n{w} {h}\n255\n"` followed by one byte per pixel. A pixel outside
  0..255 makes `struct.pack` raise, and the file then keeps the header and the earlier
  pixels. A non-ASCII image type makes the header encoding raise before anything is written.
  A reader `ReadPgm` is the partner of the writer, and a round-trip lemma connects them.
- **ImageSource** (`source.dfy`): the 8x8 example image built by nested loops. It also holds
  the text-image parser of `process_real_image_from_file`. Lines are tokenised as Python's
  `str.split()` does (the full `str.isspace` set), and each token is read as `int()` does
  (sign, digits, single `_` between digits). Tuple unpacking from the lazy `map` is modelled
  in Python's order. A formatter `ImageText` is the parser's partner, with a round-trip
  lemma.
- **Text** (`text.dfy`): `str.split`, `int()` and `f"{n}"` on strings, with
  `int(f"{n}") == n` proved.
- **Process** (`process.dfy`): `process_real_image_from_file` without its I/O. It parses
  the lines, runs both passes at the default threshold, then writes `{name}_cinza.pgm` and,
  only if that write finished, `{name}_binaria.pgm`.

Behaviour worth noting, which the model keeps as the code has it:

- The size is read from `lines[0]` even when that line is blank. Such a text is then
  rejected (`BlankSizeLineRejected`) rather than read from the first non-empty line.
- No check relates `width * height` to the number of pixels, either when parsing or when
  writing.
- A failing pixel write leaves a partial file behind.

## Model

| member | source | states |
|---|---|---|
| Pixels.Luma | reducao_dimensionalidade.py:16-29 | The luma is the weighted sum 0.299R + 0.587G + 0.114B truncated toward zero (within one unit of the exact sum, on the side of zero). For channels in 0..255 it lies in 0..255. |
| Pixels.Binarize | reducao_dimensionalidade.py:31-42 | The result is always 0 or 255. It is 255 exactly when the value reaches the threshold, with equality counting as white. The threshold defaults to 128. |
| Pixels.BinarizeMonotone | reducao_dimensionalidade.py:42 | A brighter value never binarises darker. A higher threshold never binarises brighter. |
| Pipeline.ToGrayscale | reducao_dimensionalidade.py:44-63 | The output has one value per input pixel, in order, and element i is the luma of pixel i. The result equals `GrayscaleOf(imageData)` whatever `width` and `height` are. |
| Pipeline.GrayscaleOfAt | reducao_dimensionalidade.py:56-63 | The grey image has the colour image's length, and each element is the luma of the pixel at the same position. Empty input gives empty output. |
| Pipeline.GrayscaleOfColorsAreBytes | reducao_dimensionalidade.py:56-63 | A colour image whose channels are bytes yields a grey image of bytes. |
| Pipeline.ToBinary | reducao_dimensionalidade.py:65-82 | The output has one value per grey value, in order. Element i is `Binarize(g[i], t)`, every element is 0 or 255, and the result equals `BinaryOf(g, t)`. The default threshold is 128. |
| Pipeline.BinaryOfAt | reducao_dimensionalidade.py:76-82 | The binary image has the grey image's length, and element i is the thresholded grey value i. |
| Pipeline.BinaryOfIsBinary | reducao_dimensionalidade.py:76-82 | For any grey values and any threshold, every output value is 0 or 255. |
| Pipeline.BinaryOfFixesBinary | reducao_dimensionalidade.py:76-82 | With a threshold in 1..255, an image already made of 0 and 255 comes back unchanged. |
| Pipeline.BinaryOfIdempotent | reducao_dimensionalidade.py:76-82 | With a threshold in 1..255, binarising twice gives the same image as binarising once. |
| Pipeline.BinaryOfZeroThreshold | reducao_dimensionalidade.py:76-82 | At threshold 0, every non-negative value (0 included) becomes 255. |
| Pipeline.BinaryOfThresholdAboveWhite | reducao_dimensionalidade.py:76-82 | At a threshold above 255, every value up to 255 (255 included) becomes 0. |
| Pipeline.PipelineExamples | reducao_dimensionalidade.py:44-82 | Red, blue and white become grey 76, 29 and 255, then 0, 0 and 255 at the default threshold. |
| Pgm.SimpleImage | reducao_dimensionalidade.py:84-102 | The file a call leaves behind, as a value. With an ASCII header the file starts with the header bytes and holds at most one byte per pixel after them. Otherwise the file is empty and the error is `HeaderNotAscii`. `SimpleImageLayout`, `SimpleImagePartialWrite` and `ReadPgmOfSimpleImage` give the full behaviour. |
| Pgm.PackPixels | reducao_dimensionalidade.py:101-102 | The pixel loop as a value: it writes at most one byte per pixel, and any error is a pixel out of range at a valid index. `PackPixelsSpec` and `PackPixelsStops` give the full behaviour. |
| Pgm.CreateSimpleImage | reducao_dimensionalidade.py:84-102 | The header write followed by the pixel loop produces exactly `SimpleImage`: the same bytes and the same error. The loop stops at the first pixel that is not a byte. |
| Pgm.PackPixelsSpec | reducao_dimensionalidade.py:101-102 | The pixel loop succeeds exactly when every pixel is in 0..255, and it then writes the pixels themselves in order. Otherwise it fails at the first out-of-range pixel and has written exactly the pixels before it. |
| Pgm.PackPixelsStops | reducao_dimensionalidade.py:101-102 | Once a pixel has been rejected, later pixels change neither the bytes written nor the error. |
| Pgm.Header | reducao_dimensionalidade.py:97 | `f"{image_type}\n{width} {height}\n255\n"`. Its bytes are stated by `HeaderAscii`, `HeaderBytes` and `HeaderBytesExample`. |
| Pgm.HeaderAscii | reducao_dimensionalidade.py:97-98 | The header encodes as ASCII exactly when the image type does, because the numbers and separators are always ASCII. |
| Pgm.HeaderBytes | reducao_dimensionalidade.py:97-98 | The header bytes are the type bytes, LF, the width's digits, a space, the height's digits, LF, then `255` and LF. |
| Pgm.SimpleImageLayout | reducao_dimensionalidade.py:95-102 | Writing succeeds exactly when the type is ASCII and every pixel is a byte. The file then holds the ASCII header followed by the pixel bytes in input order, with nothing between them. Its length is the header length plus the pixel count, and no `width*height` check is made. |
| Pgm.SimpleImagePartialWrite | reducao_dimensionalidade.py:95-102 | A non-ASCII type leaves the file empty. A pixel outside 0..255 at index k leaves the header and pixels 0..k-1 in the file, and the error names k and the value. |
| Pgm.SimpleImageExample | reducao_dimensionalidade.py:84-102 | A 2x2 image with pixels 10, 20, 30, 40 becomes the bytes of `P5\n2 2\n255\n` followed by those four bytes. |
| Pgm.HeaderBytesExample | reducao_dimensionalidade.py:97-98 | The header `P5\n2 2\n255\n` is ASCII, with bytes 80 53 10 50 32 50 10 50 53 53 10. |
| Pgm.ReadPgmOfSimpleImage | reducao_dimensionalidade.py:84-102 | Reading back a successful write recovers the type, width, height and every pixel, provided the type holds no newline. |
| Text.Tokens | reducao_dimensionalidade.py:193 | `str.split()` with no argument: never more tokens than characters. What the tokens are is pinned down by `TokensAfterSpace` and `TokensAfterWord`: leading whitespace is dropped, and a maximal run of non-whitespace is one token. `TokensAreWords`, `TokensEmptyIffBlank` and `TokensOfLine` follow from them. |
| Text.TokensAfterSpace | reducao_dimensionalidade.py:193 | A leading whitespace character, from the full `str.isspace` set, produces no token and does not change the tokens of the rest. |
| Text.TokensAfterWord | reducao_dimensionalidade.py:193 | A run of non-whitespace followed by whitespace or the end is one token, followed by the tokens of the rest. |
| Text.TokensAreWords | reducao_dimensionalidade.py:193 | `split()` yields only non-empty tokens, and no token contains whitespace. |
| Text.IsBlank | reducao_dimensionalidade.py:198 | `not line.strip()`: every character is whitespace from the full `str.isspace` set. `TokensEmptyIffBlank` ties it to `split()`, and `SkipBlankLine` says such a line adds no pixel. |
| Text.TokensEmptyIffBlank | reducao_dimensionalidade.py:198 | A line has no tokens exactly when it is all whitespace, so `line.strip()` is falsy exactly when `split()` is empty. |
| Text.TokensOfLine | reducao_dimensionalidade.py:199 | Splitting words joined by single spaces and ended by a newline gives back exactly those words. |
| Text.FormatInt | reducao_dimensionalidade.py:97 | `f"{n}"` is a non-empty ASCII word made of digits, with a leading `-` only for negative n. It has no leading zero: only `0` itself starts with `0`, and a `-` is never followed by `0`. |
| Text.ParseInt | reducao_dimensionalidade.py:193 | `int(token)` in base 10: an optional sign, then digits with single `_` only between digits, giving `None` where Python raises ValueError. It is specified by `ParseUnsignedDigits`, `ParseNegativeDigits`, `ParseIntAccepts`, `ParseIntRejects` and `ParseFormatInt`. |
| Text.ParseUnsignedDigits | reducao_dimensionalidade.py:193 | A digit group with no sign reads as the number its digits denote, with `_` carrying no value. |
| Text.ParseNegativeDigits | reducao_dimensionalidade.py:193 | A `-` before a digit group reads as the negated number. |
| Text.ParseIntAccepts | reducao_dimensionalidade.py:193 | `+7`, `-0`, `007` and `-1_000` are accepted, as 7, 0, 7 and -1000. |
| Text.ParseIntRejects | reducao_dimensionalidade.py:193 | `1__0`, `_1`, `1_`, `12a`, `-` and the empty token are rejected. |
| Text.ParseFormatInt | reducao_dimensionalidade.py:193 | `int(f"{n}") == n` for every integer n. |
| ImageSource.CreateColorImageExample | reducao_dimensionalidade.py:104-130 | Width and height are 8, there are exactly 64 pixels, and the pixel at index `y*8 + x` is palette entry `(x + y) % 8`. |
| ImageSource.ParseInts | reducao_dimensionalidade.py:193 | `map(int, ...)` consumed in order: on success there is one value per token. `ParseIntsSpec` states which token is reported on failure. |
| ImageSource.ParseIntsSpec | reducao_dimensionalidade.py:193 | Mapping `int` over tokens succeeds exactly when every token is an integer literal, and then gives one value per token. Otherwise the reported token is the first literal `int` rejects. |
| ImageSource.Unpack | reducao_dimensionalidade.py:193 | `a, b, ... = map(int, tokens)`. On success there were exactly n tokens and n values. Which error is reported is stated by `UnpackErrorOrder`, and `UnpackSpec` gives the success condition. |
| ImageSource.UnpackErrorOrder | reducao_dimensionalidade.py:193 | `int` sees the first min(len, n + 1) tokens before the count is judged. If it rejects one of them, the error is `InvalidLiteral` of the first rejected token. Otherwise it is `NotEnoughValues(n, len)` for fewer than n tokens and `TooManyValues(n)` for more. |
| ImageSource.UnpackTooManyExample | reducao_dimensionalidade.py:193 | Unpacking `1 2 3 x` into two names reports too many values: `x` is never passed to `int`. |
| ImageSource.UnpackBadBeforeTooManyExample | reducao_dimensionalidade.py:193 | Unpacking `1 2 x y` into two names reports the literal `x`, not the surplus. |
| ImageSource.UnpackBadBeforeTooFewExample | reducao_dimensionalidade.py:193 | Unpacking `x` into two names reports the literal `x`, not the shortage. |
| ImageSource.UnpackSpec | reducao_dimensionalidade.py:193 | Unpacking into n names succeeds exactly when there are n tokens and each is an integer literal, and the values are those integers in order. |
| ImageSource.PixelOfLine | reducao_dimensionalidade.py:199 | `r, g, b = map(int, line.strip().split())`: unpacking three values from the line's tokens. It is specified by `PixelOfLineSpec`, `UnpackErrorOrder` and `PixelOfPixelLine`. |
| ImageSource.PixelOfLineSpec | reducao_dimensionalidade.py:199 | A pixel line parses exactly when it has three integer tokens, and it gives r, g and b in that order. |
| ImageSource.LoadImageText | reducao_dimensionalidade.py:188-200 | The parsing loop returns exactly `ParseImageText(lines)`. It fails on an empty file or a malformed size line, and otherwise at the first failing pixel line. |
| ImageSource.ParseImageText | reducao_dimensionalidade.py:192-200 | The parse as a value. An empty file is `MissingSizeLine` (the IndexError of `lines[0]`). A success had exactly two tokens on the first line. `ParseImageTextSpec` and `ParseImageTextRoundTrip` give the full behaviour. |
| ImageSource.ParseImageTextSpec | reducao_dimensionalidade.py:192-200 | Parsing succeeds exactly when the first line holds two integers and every later non-blank line holds three. The size is then those two integers, with one pixel per non-blank later line. |
| ImageSource.BlankSizeLineRejected | reducao_dimensionalidade.py:193 | The size is taken from the very first line, so a blank first line is rejected as too few values. |
| ImageSource.SkipBlankLine | reducao_dimensionalidade.py:198 | A blank line adds no pixel and cannot fail. |
| ImageSource.ReadNonBlankLine | reducao_dimensionalidade.py:198-200 | A non-blank line succeeds exactly when the lines before it did and it holds three integers, and it appends its pixel. |
| ImageSource.ParsePixelLines | reducao_dimensionalidade.py:196-200 | The loop over `lines[1:]`: blank lines are skipped, and each other line appends its pixel or ends the loop with its error. It is specified by `ParsePixelLinesSucceeds`, `ParsePixelLinesValues`, `ParsePixelLinesFirstError` and `ParsePixelLinesStops`. |
| ImageSource.ParsePixelLinesStops | reducao_dimensionalidade.py:196-200 | After the first failing line, later lines are never looked at. |
| ImageSource.ParsePixelLinesSucceeds | reducao_dimensionalidade.py:196-200 | The pixel lines parse exactly when every non-blank line holds three integers. |
| ImageSource.ParsePixelLinesValues | reducao_dimensionalidade.py:196-200 | On success, the pixels are the non-blank lines' triples, one per line, in order. |
| ImageSource.ParsePixelLinesFirstError | reducao_dimensionalidade.py:196-200 | On failure, the error is that of the first non-blank line that does not hold three integers, and every non-blank line before it parsed. |
| ImageSource.ParseParsedLines | reducao_dimensionalidade.py:196-200 | Lines that are all non-blank and each hold a pixel parse to those pixels, one per line, in order. |
| ImageSource.PixelOfPixelLine | reducao_dimensionalidade.py:199 | The line `"{r} {g} {b}\n"` is not blank and parses back to (r, g, b). |
| ImageSource.ParsePixelLinesText | reducao_dimensionalidade.py:196-200 | The lines of any pixel list parse back to that list. |
| ImageSource.ParseImageTextRoundTrip | reducao_dimensionalidade.py:192-200 | Parsing the text of any image gives back its width, its height and every pixel in order. |
| ImageSource.ParseImageTextExample | reducao_dimensionalidade.py:192-200 | The text `2 1`, `10 20 30`, `40 50 60` parses to a 2x1 image with those two pixels. |
| Process.ProcessRealImage | reducao_dimensionalidade.py:188-210 | Processing fails at loading exactly when the text does not parse, and reports the parse error. Otherwise it goes on with the parsed image. |
| Process.SaveImage | reducao_dimensionalidade.py:204-210 | The grey file `{name}_cinza.pgm` is always written first, and at most the two files are written. A full save writes `{name}_binaria.pgm` second. |
| Process.BinaryFileAlwaysWritten | reducao_dimensionalidade.py:206-210 | The binary file of any grey image is written in full, because 0 and 255 are bytes. |
| Process.SaveImageFailure | reducao_dimensionalidade.py:204-210 | After a successful parse, processing fails exactly when some luma is not a byte (for channels within float range; see Left out). Only the grey file is then touched, and the error is a pixel out of range. |
| Process.SaveColorImage | reducao_dimensionalidade.py:204-210 | When every channel is a byte, both files are saved. `_cinza.pgm` holds the header and one luma per pixel; `_binaria.pgm` holds the header and one 0-or-255 value per pixel. |
| Process.ProcessColorText | reducao_dimensionalidade.py:188-210 | Every text the parser accepts whose channels are bytes ends with both files saved, exactly as `SaveImage` describes. |

## Left out

- Pixels.Luma: an exact integer version of the float formula. It is not bit-exact with Python's binary floating point, which can land just below an integer. For the palette's mid grey (128, 128, 128), the float sum falls just short of 128 and the source yields 127, which binarises to 0. The model yields 128, which binarises to 255.
- Text.ParseInt: accepts ASCII digits only. Python's `int()` also accepts other Unicode decimal digits. It also has no length limit, while CPython 3.11 and later make `int()` raise ValueError for a decimal token of more than 4300 digits.
- Pixels.Luma: has no upper limit on the channel values. In the source, `0.299 * r` turns the channel into a float, which raises OverflowError for a channel of about 2^1024 or more. The model instead returns the exact luma. The exact luma also moves the byte boundary for channels outside 0..255: at (256, 256, 256) the float sum falls just below 256, so the source gives 255; at (-1, -1, -1) the source truncates to 0. The model gives 256 and -1. A grey value the source would write as a byte therefore makes the model's grey write fail, and `SaveImage` returns `WriteFailed` where the source saves both files.
- Process.SaveImageFailure: for a channel beyond float range the source raises OverflowError in the grey pass, before any file is opened, and the `except` branch reports it. The model instead reports `WriteFailed` with a grey file holding the header. Within float range the row can still differ from the source wherever the exact luma and the float luma fall on different sides of the byte boundary (see the next `Pixels.Luma:` line).
- Text.FormatInt: has no length limit. CPython 3.11 and later make `str()` of an int with more than 4300 decimal digits raise ValueError. For such a width or height, `create_simple_image` would raise while building the header and leave the opened file empty, while the model writes the header. Sizes read by `int()` in `process_real_image_from_file` are already under that limit, and `main` uses 8.
- Opening, reading, writing and closing files (`open`, `readlines`, `with`) are I/O. The model takes the list of lines `readlines` returned and gives the bytes each file would receive.
- `FileNotFoundError` and other errors from `open` are not modelled, because they come from the file system.
- The `print` calls and the messages printed by the `except` branches are console output. The model returns the error as a `ParseError` or `WriteError` value.
- `main` only calls the modelled functions on the example image and prints the results.
- `demonstracao.py` is not part of this model. It calls the core functions on fixed examples and prints tables.
- Pixel values that are not integers (floats or booleans passed to `struct.pack`) are not modelled, because the model's images hold integers only.
