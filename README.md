# ColorRanges core, modelled in Dafny

ColorRanges is a small Python code base for grids of coloured cells. This
project models three of its files:

- **flood_fill.py**: the class `Walls`. It loads a grid of string cells from a
  text file, a text string, a CSV file or a PNG image. It checks that all rows
  have the same length. It encodes the colours of a PNG as palette
  characters `0`…`f`, in order of first appearance. It rewrites its cells
  through a conversion table.
- **print_ascii.py**:
  - the 24-bit colour codec `pack_rgb` / `unpack_rgb`;
  - `get_background_color`, the most frequent pixel colour;
  - `total_colors`, the set of pixel colours;
  - `make_ascii_picture`, which renders an image as rows of coloured spaces
    made of ANSI 24-bit background escapes.
- **service/colorbar.py**:
  - the same codec;
  - the `Color` constants;
  - the colour defaulting of `_gradient_color` and `gradient_bar`;
  - how `gradient_bar` chooses its escape and assembles the bar.

Despite its file name, `flood_fill.py` contains no flood fill and no region
segmentation. It holds only the class `Walls`, and so does the model.

The repository's tests treat the PNG palette as a list (`palette.index(...)`,
`palette[0]`). The code builds a dictionary from character to colour. The model
follows the code.

Modules:

| file | module | what it holds |
|---|---|---|
| errors.dfy | `Errors` | `Option`, `Result`, and one error per exception the code raises, with the exception class of each |
| rgb_codec.dfy | `RgbCodec` | `pack_rgb` / `unpack_rgb`, shared by print_ascii.py and service/colorbar.py (the two texts are identical), with Python's bitwise or on unbounded integers written out |
| pixels.dfy | `Pixels` | a decoded image (mode, size, pixel rows) and its pixels in row-major order |
| strings.dfy | `Strings` | `s * n`, `sep.join(parts)` and character counting |
| seqs.dfy | `Seqs` | sequences without repeats and the size of the set of their elements |
| lines.dfy | `Lines` | `str.splitlines()` with all of Python's line boundaries |
| ansi.dfy | `Ansi` | `fore_rgb`, `back_rgb`, `RESET` and Python's decimal formatting of integers |
| flood_fill.dfy | `FloodFill` | class `Walls`, with the functions its methods are proved against |
| print_ascii.dfy | `PrintAscii` | `get_background_color`, `total_colors`, `make_ascii_picture` |
| colorbar.dfy | `ColorBar` | `Color`, `_gradient_color`, `gradient_color`, `gradient_bar` |

The code is modelled in the form it is written in:

- `Walls` is a class with fields `wall`, `fileName` and `palette`. Its loaders
  and `convert` are methods with loops.
- The PNG loop, `load_from_str` and `convert` are proved against functions
  (`PngSpec`, `CharGrid`/`SplitLines`, `PartlyConverted`). Lemmas about those
  functions then state what the code promises.
- `total_colors` and `make_ascii_picture` are methods with their loops.
  `get_background_color` and everything in service/colorbar.py are functions.

The error cases are values of `Result`:

- both sources given;
- no source given, where an empty text counts as none;
- an unsupported extension;
- rows of different lengths;
- each `assert` of the PNG loader and of `make_ascii_picture`;
- a cell missing from the conversion table (`KeyError`);
- `argmax` of an empty image.

## Model

| member | source | states |
|---|---|---|
| RgbCodec.Unpack | print_ascii.py:43-47 | every channel is a byte whatever the input (`& 0xff`); for a 24-bit input the channels recompose it |
| RgbCodec.Pack | print_ascii.py:50-51 | for byte channels `pack_rgb` of (r, g, b) is `r*65536 + g*256 + b`, a 24-bit value |
| RgbCodec.OrDisjoint | print_ascii.py:51 | the bitwise or of a shifted value and a value below the shift is their sum |
| RgbCodec.UnpackPack | service/colorbar.py:49-57 | `unpack_rgb(pack_rgb(c)) == c` for byte channels |
| RgbCodec.PackUnpack | service/colorbar.py:49-57 | `pack_rgb(unpack_rgb(p)) == p` for every 24-bit `p` |
| RgbCodec.PackInjective | print_ascii.py:50-51 | two byte triples pack to the same integer exactly when they are equal |
| Pixels.FlattenMember | print_ascii.py:60 | a colour is in the row-major pixel list exactly when some cell holds it |
| Pixels.FlattenLength | print_ascii.py:60 | the row-major pixel list has `height * width` entries |
| Lines.LineEnd | flood_fill.py:63 | the first line ends at the first line boundary, or at the end of the text |
| Lines.SplitLines | flood_fill.py:63 | no line of `splitlines()` holds a line boundary |
| Lines.SplitJoin | flood_fill.py:63 | `splitlines()` undoes joining lines with "\n", with or without a last unterminated line |
| Strings.RepeatCount | print_ascii.py:103 | `s * n` holds each character `n` times as often as `s`, and nothing when `n <= 0` |
| Strings.JoinCount | service/colorbar.py:97 | a join holds the characters of its parts plus one separator between each two neighbours |
| Strings.JoinedCountEach | service/colorbar.py:97 | parts that each hold a character `v` times hold it `v` times per part in all |
| Strings.CountZero | print_ascii.py:101 | a character is counted zero times exactly when it does not occur |
| Strings.CountConcat | print_ascii.py:101-104 | counting is additive over concatenation |
| Ansi.NatToStringDigits | print_ascii.py:13-14 | `f"{n}"` of a natural number is at least one decimal digit, only digits, with no leading zero |
| Ansi.NatToStringValue | print_ascii.py:13-14 | reading the digits of `f"{n}"` back gives `n` |
| Ansi.IntToStringChars | print_ascii.py:13-14 | `f"{n}"` of any integer is made of a sign and digits |
| Ansi.ChannelsPlain | print_ascii.py:13-14 | the `{r};{g};{b}m` part of an escape holds no escape character, space or line break |
| Ansi.EscapeCharsOnly | print_ascii.py:13-14 | `back_rgb` and `fore_rgb` consist of escape characters only |
| Ansi.EscapeCounts | print_ascii.py:13-14 | each colour escape holds exactly one escape character, no space and no "\n" |
| Ansi.Back | print_ascii.py:14 | `back_rgb` starts with "\x1b[48;2;" and ends with "m"; ChannelsPlain, EscapeCounts and NatToStringValue state what lies between |
| Ansi.Fore | print_ascii.py:13 | `fore_rgb` starts with "\x1b[38;2;" and ends with "m"; ChannelsPlain, EscapeCounts and NatToStringValue state what lies between |
| Ansi.ResetCounts | print_ascii.py:15 | `RESET` holds one escape character, no space and no "\n" |
| Ansi.EscapesShaped | print_ascii.py:13-14 | `back_rgb` and `fore_rgb` are formatters whose every escape holds one escape character, no space and no line break |
| Ansi.EscapesAvoid | service/colorbar.py:13-15 | a character that is not an escape character occurs in no colour escape and not in `RESET` |
| FloodFill.Walls.Init | flood_fill.py:15-17 | the fields start as an empty wall, the given file and an empty palette |
| FloodFill.Walls.New | flood_fill.py:13-27 | both a file and a non-empty text raise `ValueError`; neither (or an empty text) raises `ValueError`; a text gives one row of characters per line; a file gives what `load` gives, or its error |
| FloodFill.Walls.Load | flood_fill.py:29-41 | the error is `LoadError` of the file; the wall is the loaded grid even when validation then fails; only a PNG changes the palette |
| FloodFill.Loaded | flood_fill.py:29-41 | the reference definition of what the loader picked by extension returns; it fails only for .png, with an assertion, or for an unknown extension, with `ImportError`. LoadOutcome states the rest |
| FloodFill.LoadError | flood_fill.py:29-41 | the reference definition of the error `load` raises; it is none exactly when loading succeeds and `validate_cells` accepts the grid, and is the loader's own error when loading fails |
| FloodFill.LoadOutcome | flood_fill.py:29-41 | an extension other than .txt/.csv/.png (after lower-casing) raises `ImportError`; an accepted grid is rectangular; a bad row length comes only from .txt or .csv; an assertion comes only from .png |
| FloodFill.SuffixCase | flood_fill.py:35 | two suffixes with the same lower case load alike |
| FloodFill.Lower | flood_fill.py:35 | `lower()` keeps the length, leaves no capital ASCII letter, keeps every other character where it was, and turns each capital into the small letter at the same place in the alphabet |
| FloodFill.LowerIdempotent | flood_fill.py:35 | lower-casing a lower-cased suffix changes nothing |
| FloodFill.RaggedTextRejected | flood_fill.py:39-41 | a text file "###\n#.#\n##" raises `ImportError` for its row lengths |
| FloodFill.JsonRejected | flood_fill.py:35-37 | a ".json" file raises `ImportError` for its format |
| FloodFill.ValidateCells | flood_fill.py:43-44 | true exactly when all rows have one length, so vacuously for 0 or 1 rows |
| FloodFill.Walls.LoadFromTxt | flood_fill.py:46-54 | the rows of the file's text, as `load_from_str` makes them |
| FloodFill.Walls.LoadFromStr | flood_fill.py:56-65 | one row per line of `splitlines()`, and cell j of row i is character j of line i |
| FloodFill.SplitExample | flood_fill.py:63 | "###\n#.#\n" followed by a last line splits into three lines |
| FloodFill.TextExample | flood_fill.py:56-65 | "###\n#.#\n###" loads as a 3-by-3 grid of its characters |
| FloodFill.Walls.LoadFromCsv | flood_fill.py:67-75 | the rows the CSV reader returns |
| FloodFill.PngSpec | flood_fill.py:77-103 | the reference definition of `load_from_png`: it succeeds exactly when the mode is RGB, width < 179, height < 28 and at most 16 colours occur, giving `height` rows and one palette entry per colour. PngFails, PngCells, PngKeys, PngOrder and PngTooMany state the rest |
| FloodFill.Walls.LoadFromPng | flood_fill.py:77-103 | asserts mode RGB, width < 179 and height < 28, then returns exactly what `PngSpec` gives, cells or error, and leaves the palette as `PngPalette` says |
| FloodFill.Walls.EncodeImage | flood_fill.py:87-103 | the row and column loops give `PngSpec`'s cells or its error, and `PngPalette`'s palette |
| FloodFill.Walls.EncodePixel | flood_fill.py:93-101 | a new colour gets the next key unless 16 are used (then the assertion fails); a known colour keeps its key; the key found maps to the pixel's colour |
| FloodFill.PngFails | flood_fill.py:91-98 | past the size checks, PNG loading fails exactly when the image holds more than 16 colours |
| FloodFill.PngCells | flood_fill.py:90-103 | the cells have `height` rows of `width` cells, and each cell's key maps back to that pixel's colour |
| FloodFill.PngKeys | flood_fill.py:88-98 | the palette has at most 16 entries, its keys are the first `n` characters of "0123456789abcdef", and no two keys share a colour |
| FloodFill.PngOrder | flood_fill.py:91-98 | keys are given in row-major order of first appearance: a smaller key's colour appears first |
| FloodFill.PngTooMany | flood_fill.py:94-97 | with more than 16 colours loading fails with the too-many-colours assertion, and the palette holds the first 16 colours seen |
| FloodFill.PngSucceeds | flood_fill.py:87-103 | with at most 16 colours loading gives the encoded cells and the palette of the colours in order of first appearance |
| FloodFill.TooManyColorsAt | flood_fill.py:94-95 | meeting a 17th new colour means the image has more than 16 colours, and the 16 seen so far are its first 16 |
| FloodFill.FirstSeen | flood_fill.py:94-98 | the colours in order of first appearance: distinct, and exactly the colours present |
| FloodFill.FirstSeenOrder | flood_fill.py:94-98 | the colours of `FirstSeen` come in the order of their first index |
| FloodFill.FirstSeenPrefix | flood_fill.py:91-98 | scanning more pixels only extends the list of colours seen |
| FloodFill.SeenStep | flood_fill.py:94-98 | one more pixel adds its colour exactly when the colour is new |
| FloodFill.ColorCount | flood_fill.py:94-95 | the number of distinct pixel colours is the length of `FirstSeen` |
| FloodFill.Key | flood_fill.py:88 | the i-th palette key is the single character `0`…`9`, `a`…`f` at position i |
| FloodFill.PaletteShape | flood_fill.py:97 | for distinct colours the palette's keys are the first `n` keys, its values the colours, and no two keys share a colour |
| FloodFill.PaletteLookup | flood_fill.py:97 | key i maps to the i-th colour seen, and every key is one of those |
| FloodFill.PaletteAt | flood_fill.py:97 | key i is in the palette exactly when i colours were seen before it, and then it maps to the i-th |
| FloodFill.PaletteExtend | flood_fill.py:97-98 | a new colour adds the next, so far unused, key and changes nothing else |
| FloodFill.PaletteValue | flood_fill.py:94 | `color in palette.values()` exactly when the colour was seen |
| FloodFill.PaletteFind | flood_fill.py:100 | `next(k for k, v ...)` finds a key that maps to the colour |
| FloodFill.PaletteKey | flood_fill.py:100 | the only key that maps to a colour is that colour's code |
| FloodFill.CardOfKeys | flood_fill.py:97 | the palette of `n` colours has `n` keys |
| FloodFill.EncodedIsSpec | flood_fill.py:100-103 | cells whose keys all map to their pixels' colours are the encoded cells |
| FloodFill.TableOrDefault | flood_fill.py:111 | a non-empty table is used as given; an empty or missing one becomes `{'0': '▮', '1': '▭'}`; the table used is never empty |
| FloodFill.Walls.Convert | flood_fill.py:105-116 | every cell is replaced by its table entry and `self` is returned; the first cell, in row-major order, without an entry raises `KeyError`, and the cells before it are already converted |
| FloodFill.PartlyConverted | flood_fill.py:113-115 | converting keeps every row's length, so it keeps `validate_cells` |
| FloodFill.ConvertStep | flood_fill.py:114-115 | converting one more cell changes that cell only |
| FloodFill.ConvertRow | flood_fill.py:113-115 | a fully converted row ends the step for that row |
| PrintAscii.Insert | print_ascii.py:67 | inserting into an increasing sequence keeps it increasing and adds exactly the new value |
| PrintAscii.Unique | print_ascii.py:67 | `np.unique` gives the values present, in increasing order, without repeats |
| PrintAscii.ArgMax | print_ascii.py:68 | `argmax` is an index of a largest count, and the first such index |
| PrintAscii.PackAllMember | print_ascii.py:60-63 | a packed value is present exactly when some pixel packs to it |
| PrintAscii.OccurrencesOfPacked | print_ascii.py:60-67 | a packed colour occurs as often as the colour |
| PrintAscii.BackgroundColor | print_ascii.py:54-68 | the reference definition of `get_background_color`: it fails with the `argmax` error exactly when there are no pixels. BackgroundChoice, BackgroundOccurs, BackgroundMostFrequent and BackgroundTieBreak state what it returns |
| PrintAscii.BackgroundEmpty | print_ascii.py:60-68 | the background fails (`argmax` of nothing) exactly when the image has no pixels |
| PrintAscii.BackgroundChoice | print_ascii.py:54-68 | the background is a pixel colour; no colour is more frequent; among equally frequent colours it packs smallest |
| PrintAscii.MostFrequentPacked | print_ascii.py:60-68 | the colour unpacked from the packed value `argmax` picks is a pixel colour of largest count, and the lowest-packing one among them |
| PrintAscii.PackedBeats | print_ascii.py:67-68 | any pixel colour occurs in the packed list as often as in the image, no more often than the chosen value, and packs no lower when as frequent |
| PrintAscii.BackgroundOccurs | print_ascii.py:54-68 | the background colour is the colour of some pixel |
| PrintAscii.BackgroundMostFrequent | print_ascii.py:54-68 | no pixel's colour occurs more often than the background |
| PrintAscii.BackgroundTieBreak | print_ascii.py:67-68 | a colour as frequent as the background packs to a larger value, strictly larger when it differs |
| PrintAscii.TotalColors | print_ascii.py:71-80 | the loops over columns and rows collect exactly the set of pixel colours |
| PrintAscii.PixelSetFacts | print_ascii.py:71-80 | the colour set is the set of the pixel list, has at most `width * height` members, and holds the background |
| PrintAscii.Multiplexer | print_ascii.py:88 | `multiplexer or 2`: `None` and 0 both become 2, a given non-zero value is kept, and the result is never 0 |
| PrintAscii.AsciiPicture | print_ascii.py:87-106 | the reference definition of `make_ascii_picture`: it succeeds exactly when the mode is RGB, `width * multiplexer < 179` and `height < 28`, and the picture then ends with `RESET`. PictureSplits and PictureCounts state its shape |
| PrintAscii.MakeAsciiPicture | print_ascii.py:87-106 | the picture, or the failed assertion: mode RGB, then `width * multiplexer < 179`, then `height < 28` |
| PrintAscii.MakeRow | print_ascii.py:96-103 | one row: a background escape where a run of one colour starts, then `multiplexer` spaces per cell |
| PrintAscii.PictureSplits | print_ascii.py:94-106 | `splitlines()` of the picture gives one line per image row, each ended by a reset, then the final reset |
| PrintAscii.PictureCounts | print_ascii.py:94-106 | the picture holds `height` "\n", `width * multiplexer` spaces per row (none for a negative multiplexer), and ends with `RESET` |
| PrintAscii.RowsCounts | print_ascii.py:95-104 | the first `k` rows hold `k` "\n" and `width * multiplexer` spaces each |
| PrintAscii.LineCounts | print_ascii.py:104 | a line holds no "\n" and `multiplexer` spaces per cell |
| PrintAscii.LineEscapes | print_ascii.py:97-104 | a line holds one escape per run of one colour, and the reset |
| PrintAscii.RowTextSpaces | print_ascii.py:103 | a row holds `multiplexer` spaces per cell, none when it is negative |
| PrintAscii.RowTextEscapes | print_ascii.py:97-102 | a row holds one escape per run of one colour |
| PrintAscii.RowTextNoBreaks | print_ascii.py:96-103 | a row holds no line break |
| PrintAscii.RowLineNoBreaks | print_ascii.py:104 | a line, with its reset, holds no line break |
| PrintAscii.SpacesCount | print_ascii.py:103 | `" " * m` holds `m` spaces (none when `m <= 0`), no escape and no line break |
| PrintAscii.RunsBounds | print_ascii.py:97-102 | a non-empty row has between 1 and one-per-cell escapes: one for a row of one colour, one per cell when neighbours always differ |
| PrintAscii.RowsAreLines | print_ascii.py:95-104 | the first `k` rows are the first `k` lines, each ended by "\n" |
| ColorBar.Color.Value | service/colorbar.py:18-26 | every `Color` member is a 24-bit value |
| ColorBar.ColorChannels | service/colorbar.py:18-26 | each member decodes to the channels it is named after, e.g. GREY to (128, 128, 128) and YELLOW to (255, 255, 0) |
| ColorBar.ColorRoundTrip | service/colorbar.py:18-26 | packing a member's channels gives the member back |
| ColorBar.ColorValuesDistinct | service/colorbar.py:18-26 | no two members share a value, and only BLACK is 0, that is falsy |
| ColorBar.GradientRgb | service/colorbar.py:60-68 | the reference definition of `_gradient_color`, with the float interpolation as a parameter; GradientDefaults, GradientEnds and GradientConstant state its contract |
| ColorBar.GradientColor | service/colorbar.py:71-76 | the reference definition of `gradient_color`; GradientColorUnpacks states its contract |
| ColorBar.GradientDefaults | service/colorbar.py:63-64 | a falsy `color` becomes RED and a falsy `to_color` GREEN, so BLACK as an endpoint means the default, never black |
| ColorBar.GradientEnds | service/colorbar.py:60-68 | with an interpolation exact at its ends, the gradient starts at the (defaulted) first colour and ends at the (defaulted) second |
| ColorBar.GradientConstant | service/colorbar.py:66-68 | between a colour and itself the gradient is that colour |
| ColorBar.GradientColorUnpacks | service/colorbar.py:71-76 | `gradient_color` packs `_gradient_color`: for byte channels unpacking it gives them back |
| ColorBar.BarEnds | service/colorbar.py:86-90 | the colours `gradient_bar` settles on are both truthy |
| ColorBar.BarIgnoresToColor | service/colorbar.py:86-88 | a falsy `color` (None or BLACK) draws RED to GREEN whatever `to_color` is |
| ColorBar.BarToColorDefault | service/colorbar.py:89-90 | with a colour and a falsy `to_color` the bar goes from the colour to itself |
| ColorBar.BarGradient | service/colorbar.py:86-99 | inside a bar the defaults of `_gradient_color` never apply: its gradient runs between exactly the settled colours |
| ColorBar.EscapeChoice | service/colorbar.py:92 | the symbol " " draws with the background escape, any other symbol with the foreground escape |
| ColorBar.LongSymbolBar | service/colorbar.py:92-95 | a symbol longer than one character is drawn once, after exactly one foreground escape of the colour at `fract`, then `RESET` |
| ColorBar.RainbowParts | service/colorbar.py:97 | a rainbow has one part per cell, `round(k * fract)` of them and none when that is not positive; each part is a single escape that holds one escape character, no space and no line break |
| ColorBar.BodyEscapeCount | service/colorbar.py:94-99 | the bar body holds one escape, or one per cell for a rainbow of a one-character symbol |
| ColorBar.BodyCellCount | service/colorbar.py:97-99 | a one-character symbol is drawn once per cell; a rainbow of no cells still draws it once |
| ColorBar.BarEscapeCount | service/colorbar.py:94-101 | without the percentage the bar holds the body's escapes and the reset |
| ColorBar.BarCellCount | service/colorbar.py:97-101 | a one-character symbol that is not part of an escape appears `round(k * fract)` times (never negative), and once in an empty rainbow |
| ColorBar.GradientBar | service/colorbar.py:79-105 | the reference definition of `gradient_bar`: it ends with `RESET` without the percentage and with " " and the percentage with it. BarIgnoresToColor, BarToColorDefault, BarGradient, LongSymbolBar, BarEscapeCount and BarCellCount state the rest |
| ColorBar.BarSuffix | service/colorbar.py:101-103 | the percentage follows `RESET` exactly when `percent` is true; without it the bar ends with `RESET` |

## Left out

- File and library I/O is left out: `read_text`, `csv.reader`, `Image.open`/`getpixel`, numpy. A file is a `SourceFile` that carries what each reader would return for it.
- CSV parsing is left out; the model takes the rows `csv.reader` gives.
- `Pixels.RawImage.WellFormed`: the image is assumed three-channel with byte channels, as Pillow gives for mode RGB. `get_background_color` and `total_colors` on other modes are not modelled.
- The `isinstance(img, Image.Image)` assertion of `make_ascii_picture` is not modelled: the argument is always an image here.
- `get_color_from_pixel` is not modelled separately; it is inlined as `pixels[y][x]`.
- `FloodFill.Lower`: `str.lower()` is modelled on ASCII capitals only; other Unicode case mappings are left out.
- `Walls.print`, `print_color` and the `__main__` demos are left out. They are terminal output.
- `Walls.__init__` sets `palette` to an empty list, and only `load_from_png` replaces it with a dictionary. The model starts from an empty map. The core never reads the initial list, so the two behave alike.
- `convert` mutates the lists of `self.wall` in place. The model reassigns the `wall` field, so aliasing of those lists by other holders is not modelled.
- colorama's `Style.RESET_ALL` is modelled as the same text "\x1b[0m" as `RESET`.
- `ColorBar.GradientRgb`, `ColorBar.GradientBar`: the float work is uninterpreted. These are `round(a + (b - a) * fract)`, `round(k * fract)`, `w / k` and `f"{fract:.0%}"`. They are fields of a `Floats` record that the caller supplies.
- Also uninterpreted: what non-finite fractions do (`round` raising `ValueError`/`OverflowError`), and the `ZeroDivisionError` of `w / k`. That error cannot happen for finite fractions, because then `round(0 * fract)` is 0.
- The `Gradient` enum of service/colorbar.py is left out. No modelled function uses it.
- In print_ascii.py, the tuple-valued `Color` and `Gradient` enums are left out, and so are `gradient_color`, `make_gradient_bar` and `make_color_string`. They are variants of the service/colorbar.py code outside this model.
- player.py (an arcade window driven by float frame times) is not part of this model.
- color_ranges.py (reads config.ini and prints) is not part of this model.
- The commented-out random sampling in `get_background_color` is not modelled, nor is its unused `fraction`.
