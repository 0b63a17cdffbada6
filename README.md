# Aesthetic font and glyph utilities, modelled in Dafny

This project models three helper scripts of the Aesthetic theme generator.

**`utils/compare_fonts.py`** compares two headerless bitmap fonts. Each font is a flat byte blob.

- *Grid detection.* A brute-force search finds the glyph grid of each blob.
  - Every width 4..32 and height 4..64 whose glyph size divides the file into at least 64 glyphs is a candidate.
  - A candidate's score is the fraction of its glyphs that hold a nonzero byte.
  - The first candidate with the highest score wins. The search order is ascending width, then ascending height.
- *Average ink box.* The script then averages the tight ink bounding boxes of the non-blank glyphs.
- *Scale factors.* Finally it derives width, height and geometric-mean scale factors from the two averages.

**`utils/generate_template_glyphs.py`** and **`utils/convert_svg_to_png.py`** read a glyph map with lines of the form `output_name, input_name`.

- They turn each mapping into a conversion job, from `<svg dir>/<input>.svg` to `<output base>/<output>.png`.
- They report lines without a comma as invalid.
- A missing input file ends the run. The script prints a warning, after which opening the file raises.
- The generator also skips comment lines, starting with `#`. It then lists, sorted, the stems of the `.svg` files of the icon directory that no map line names as its input.

The model replaces the file system by values:

| In the scripts | In the model |
|---|---|
| a font file | its bytes |
| the map file | its lines |
| the icon directory | its listing |
| `os.path.exists` | a set of existing paths |
| a conversion | a `Job` holding its two paths |

Grid detection, bounding-box averaging and the map loops are imperative methods. Each of these methods is proved against a specification function:

- `IsBest` for the search;
- `Mean`/`InkBoxes` for the averages;
- `Jobs`/`InvalidLines`/`Unused` for the map scripts.

Lemmas then establish what those functions mean.

Files:

| file | module | models |
|---|---|---|
| `wrappers.dfy` | `Wrappers` | the optional value used by several modules |
| `glyph_grid.dfy` | `GlyphGrid` | blob decoding, scoring, the search |
| `bbox_stats.dfy` | `BBoxStats`, `BBoxFacts` | the average ink box and its properties |
| `compare_fonts.dfy` | `CompareFonts` | the scale factors and the whole comparison |
| `detection_example.dfy` | `DetectionExample` | a blob on which the tie-break decides |
| `py_str.dfy` | `PyStr` | `str.strip`, `str.split(",", 1)`, `splitext`, `sorted` |
| `map_file.dfy` | `MapFile` | the map-line format and paths shared by both map scripts |
| `generate_template_glyphs.dfy` | `GenerateTemplateGlyphs` | the generator's `main` and `find_unused_svg_files` |
| `convert_svg_to_png.dfy` | `ConvertSvgToPng` | the converter's `main` and how it differs from the generator: it skips only blank lines, and it reads its SVGs from `assets/icons/lucide/svg` where the generator reads `assets/icons/lucide/glyphs` |

## A tie the search breaks toward the smallest grid

Take a 4096-byte blob laid out as 64 glyphs of 8×8 with exactly one glyph fully inked. The search detects it as 4×4, not 8×8.

- Every grid the search accepts for 4096 bytes has a glyph size of 16, 32 or 64 bytes. Each of these divides 64.
- So every accepted grid sees the inked 64 bytes as whole inked glyphs, and every one scores exactly 1/64.
- The strict `>` at `utils/compare_fonts.py:28` keeps the first of the tied candidates in search order, which is (4, 4).
- The average ink box is then 4×4, not 8×8.

`DetectionExample` proves this for every position of the inked glyph.

## Model

| member | source | states |
|---|---|---|
| GlyphGrid.SmartDetectGlyphSize | utils/compare_fonts.py:8-37 | fails exactly when no grid in 4..32 × 4..64 divides the blob into at least `min_glyphs` (and at least one) glyphs; otherwise returns the best-scoring grid, the first in width-then-height order among equal scores (`IsBest`), with the blob decoded under it |
| GlyphGrid.Decode | utils/compare_fonts.py:25 | the reshape gives file size / (w·h) glyphs, each of h rows of w pixels |
| GlyphGrid.DecodePixel | utils/compare_fonts.py:25 | pixel (r, c) of glyph i of the reshaped array is byte i·w·h + r·w + c of the blob, and that byte exists |
| GlyphGrid.DecodeCoversBlob | utils/compare_fonts.py:19-25 | when w·h divides the size, the glyphs tile the blob with no remainder: count × w·h = file size |
| GlyphGrid.ScoredMeansTiling | utils/compare_fonts.py:16-23 | a candidate gets a score exactly when it lies in 4..32 × 4..64 and the blob is a whole, non-zero number of w·h glyphs, at least `min_glyphs` |
| GlyphGrid.BlankGlyphBytes | utils/compare_fonts.py:25-26 | glyph i counts as empty exactly when its w·h bytes of the blob are all zero |
| GlyphGrid.CountInked | utils/compare_fonts.py:26 | the count of non-empty glyphs is at most the glyph count, 0 exactly when all glyphs are blank, and the full count exactly when none is |
| GlyphGrid.Score | utils/compare_fonts.py:27 | the non-empty fraction lies in [0, 1] |
| GlyphGrid.ScoreExtremes | utils/compare_fonts.py:26-27 | a score of 0 means every glyph is blank, a score of 1 that none is, and conversely |
| GlyphGrid.BestUnique | utils/compare_fonts.py:28-31 | the tie-break leaves at most one best grid, so the search result is determined by the blob |
| GlyphGrid.TakeCandidate | utils/compare_fonts.py:28-31 | a strictly better score, or the first score at all (best_score starts at -1), makes the candidate the best so far |
| GlyphGrid.KeepBest | utils/compare_fonts.py:28 | a score not above the best so far leaves the earlier best in place, so it also wins ties |
| GlyphGrid.SkipCandidate | utils/compare_fonts.py:19-23 | a candidate that does not divide the file or gives too few glyphs changes nothing |
| DetectionExample.ScoreIsOneIn64 | utils/compare_fonts.py:16-27 | on a 4096-byte blob with one fully inked 8×8 glyph, every grid the search scores gets exactly 1/64 |
| DetectionExample.OneInkedGlyphDetectsSmallestGrid | utils/compare_fonts.py:16-31 | on that blob, (4, 4) is the best grid; (8, 8) ties with it and is not the best |
| DetectionExample.AverageBoxIsCell | utils/compare_fonts.py:40-56 | on that blob, under every scored grid, the average ink box is exactly the grid cell (4 × 4 under the detected grid) |
| BBoxStats.InkRows | utils/compare_fonts.py:44 | entry r is true exactly when row r has a nonzero pixel, and some entry is true exactly when the glyph is not blank |
| BBoxStats.InkCols | utils/compare_fonts.py:45 | entry c is true exactly when column c has a nonzero pixel, and some entry is true exactly when the glyph is not blank |
| BBoxStats.TrueIndices | utils/compare_fonts.py:48-49 | the positions of the true entries, strictly ascending, and every true entry is listed |
| BBoxStats.NoInkLineMeansBlank | utils/compare_fonts.py:46-47 | a glyph with no inked row or no inked column is blank, so skipping it drops only empty glyphs |
| BBoxStats.IndicesGiveTightBox | utils/compare_fonts.py:48-51 | the first and last inked row and column enclose every ink pixel and each touch ink |
| BBoxStats.GlyphBox | utils/compare_fonts.py:44-53 | a glyph has no box exactly when it is blank; otherwise its box is tight around its ink |
| BBoxStats.AvgCharBBox | utils/compare_fonts.py:40-56 | the returned averages are the means of the widths and of the heights of the ink boxes of the non-blank glyphs, in glyph order, 0 when there are none |
| BBoxFacts.TightBoxUnique | utils/compare_fonts.py:48-51 | a glyph has only one tight box, so the box the code computes is the tight box |
| BBoxFacts.FullGlyphBox | utils/compare_fonts.py:44-53 | a fully inked h×w glyph has the whole cell as its box, of width w and height h |
| BBoxFacts.SinglePixelBox | utils/compare_fonts.py:48-53 | a glyph with a single ink pixel has a 1×1 box at that pixel |
| BBoxFacts.BoxSize | utils/compare_fonts.py:50-51 | a box width lies in [1, w] and a height in [1, h] |
| BBoxFacts.InkBoxesCount | utils/compare_fonts.py:46-53 | one sample per non-blank glyph: as many samples as the detection's non-empty count |
| BBoxFacts.InkBoxesAreTight | utils/compare_fonts.py:43-53 | every sample is the tight box of some non-blank glyph |
| BBoxFacts.InkBoxesAt | utils/compare_fonts.py:43-53 | the samples follow glyph order: a non-blank glyph's box is the sample right after one sample per non-blank glyph before it |
| BBoxFacts.InkBoxesAppend | utils/compare_fonts.py:43-53 | glyphs are measured independently: the samples of two glyph runs concatenate |
| BBoxFacts.BlankGlyphAddsNoSample | utils/compare_fonts.py:46-47 | inserting a blank glyph anywhere changes neither the samples nor the averages |
| BBoxStats.Mean | utils/compare_fonts.py:54-55 | the mean times the sample count is the sample total, and the mean of no samples is 0 |
| BBoxFacts.MeanBounds | utils/compare_fonts.py:54-55 | the mean of a non-empty sample lies between its lower and upper bounds |
| BBoxFacts.AverageBounds | utils/compare_fonts.py:54-56 | for h×w glyphs, both averages are 0 when every glyph is blank, and otherwise lie in [1, w] and [1, h] |
| CompareFonts.Ratio | utils/compare_fonts.py:72-73 | the ratio times the divisor gives back the dividend; a zero divisor gives 0 instead of failing |
| CompareFonts.GeomMeanOf | utils/compare_fonts.py:74-76 | the square root is taken exactly when both scales are nonzero, of their product; on both branches any value the result stands for is non-negative and squares to the product of the two scales |
| CompareFonts.EstimateScale | utils/compare_fonts.py:72-76 | the width and height scales map font 1's averages onto font 2's, are 0 where font 1's average is 0, and the geometric mean is the root of their product when both are nonzero |
| CompareFonts.IdentityScale | utils/compare_fonts.py:72-76 | a font with ink (nonzero average width and height), compared with itself, has width, height and geometric-mean scale 1; an all-blank font gets scale 0 instead (see DegenerateScale) |
| CompareFonts.DegenerateScale | utils/compare_fonts.py:72-76 | a first font with zero average in a dimension gets scale 0 there and a geometric mean of 0, without failing |
| CompareFonts.ScalesNonNegative | utils/compare_fonts.py:72-76 | non-negative averages give non-negative scales and a radicand whose root exists |
| CompareFonts.ScalesPositive | utils/compare_fonts.py:72-76 | two fonts with ink get positive scales and a positive radicand |
| CompareFonts.Compare | utils/compare_fonts.py:59-76 | fails exactly when either font has no acceptable grid; otherwise reports each font's best grid and average box and the scale between them |
| PyStr.LeadingSpace | utils/generate_template_glyphs.py:42 | the length of the whitespace run a string starts with, stopping at the first non-whitespace character |
| PyStr.TrailingSpace | utils/generate_template_glyphs.py:42 | the length of the whitespace run a string ends with, stopping at the last non-whitespace character |
| PyStr.Strip | utils/generate_template_glyphs.py:42 | the stripped string is a contiguous slice after the leading whitespace, followed only by whitespace, and neither starts nor ends with whitespace |
| PyStr.StripIdempotent | utils/generate_template_glyphs.py:42 | stripping twice is stripping once |
| PyStr.StripEmpty | utils/generate_template_glyphs.py:42-43 | a line strips to nothing exactly when it is all whitespace |
| PyStr.StripUnique | utils/generate_template_glyphs.py:42 | the stripped line is the only middle part between a whitespace prefix and a whitespace suffix that neither starts nor ends with whitespace |
| PyStr.StripIgnoresTrailingSpace | utils/generate_template_glyphs.py:42 | appending whitespace to a line does not change its stripped form |
| PyStr.StripDropsLineEnd | utils/generate_template_glyphs.py:39-42 | a line read with its "\n", "\r\n" or "\r" terminator strips to the same text as without it |
| PyStr.SplitOnce | utils/generate_template_glyphs.py:46 | splitting at the first comma gives two parts exactly when there is a comma; the first part has no comma and the parts rejoin around the comma to the line |
| PyStr.SplitOnceUnique | utils/generate_template_glyphs.py:46 | every cut at a comma with no comma before it is the split the code makes |
| PyStr.SvgStem | utils/generate_template_glyphs.py:76-77 | `splitext` drops the ".svg" suffix exactly when something other than dots precedes it, and otherwise keeps the name whole |
| PyStr.SortStrings | utils/generate_template_glyphs.py:92 | `sorted` returns a permutation of its input in code-point lexicographic order |
| PyStr.SortedUnique | utils/generate_template_glyphs.py:92 | there is only one sorted permutation, so the printed order is determined |
| PyStr.LexLeTotal | utils/generate_template_glyphs.py:92 | any two strings are comparable in the string order |
| PyStr.LexLeTransitive | utils/generate_template_glyphs.py:92 | the string order is transitive |
| PyStr.LexLeAntisymmetric | utils/generate_template_glyphs.py:92 | strings ordered both ways are equal |
| MapFile.ParseFields | utils/generate_template_glyphs.py:46-52 | a line without a comma is invalid and is reported as is; otherwise the fields are the stripped text before the first comma and the stripped rest |
| MapFile.ParseFieldsComplete | utils/generate_template_glyphs.py:46-52 | conversely, any cut at a first comma yields exactly the mapping of its stripped sides |
| MapFile.FilePath | utils/generate_template_glyphs.py:54-55 | an output or input path is the directory, a slash, the name and the extension (".png" for outputs, ".svg" for inputs), and the name can be read back from it |
| MapFile.FilePathInjective | utils/generate_template_glyphs.py:54-55 | different names give different paths in the same directory with the same extension |
| MapFile.CollectAppend | utils/generate_template_glyphs.py:41-66 | lines are processed independently: the outcome of a concatenation of maps is the concatenation of their outcomes |
| MapFile.CollectAt | utils/generate_template_glyphs.py:41-66 | the outcome of line k follows directly after the outcomes of the lines before it |
| GenerateTemplateGlyphs.ParseLine | utils/generate_template_glyphs.py:41-52 | a blank or comment line is skipped, a kept line without a comma is invalid, and a kept line with one is the mapping of its stripped fields around the first comma |
| GenerateTemplateGlyphs.ParseLineComplete | utils/generate_template_glyphs.py:43-52 | every kept line cut at a first comma is parsed as exactly that mapping |
| GenerateTemplateGlyphs.MissingInput | utils/generate_template_glyphs.py:57-63 | a mapping whose input is missing leaves the whole map with a job that cannot run |
| GenerateTemplateGlyphs.ProcessMap | utils/generate_template_glyphs.py:41-66 | every job it runs reads an existing file; with all inputs present it runs one job per mapping line in map order and reports every invalid line; otherwise it stops at the first missing input, having done exactly the lines before it |
| GenerateTemplateGlyphs.NonMappingLineSkipped | utils/generate_template_glyphs.py:43-49 | a blank, comment or invalid line adds no job, and the lines around it are still converted |
| GenerateTemplateGlyphs.InvalidLineReported | utils/generate_template_glyphs.py:46-49 | an invalid line is reported, stripped, between the reports of the lines around it |
| GenerateTemplateGlyphs.SkippedLineIgnored | utils/generate_template_glyphs.py:42-44 | removing a blank or comment line changes neither the jobs nor the reports |
| GenerateTemplateGlyphs.IconOfLine | utils/generate_template_glyphs.py:81-86 | a line yields an icon exactly when it is kept and has a comma, and the icon is the stripped text after its first comma |
| GenerateTemplateGlyphs.IconOfLineAgreesWithMain | utils/generate_template_glyphs.py:81-86 | `find_unused_svg_files` takes an icon from exactly the lines `main` converts, and takes their input field |
| GenerateTemplateGlyphs.MapIconsAreJobInputs | utils/generate_template_glyphs.py:79-86 | the icon list names, in order, the inputs of the jobs `main` runs |
| GenerateTemplateGlyphs.MapIconsMembers | utils/generate_template_glyphs.py:79-86 | a name is on the icon list exactly when some map line yields it as its icon |
| GenerateTemplateGlyphs.SvgStems | utils/generate_template_glyphs.py:74-77 | the stems are exactly the `splitext` stems of the listing's ".svg" entries, and there are no more stems than entries |
| GenerateTemplateGlyphs.SvgStemsCount | utils/generate_template_glyphs.py:74-77 | each stem occurs as many times as there are ".svg" entries in the listing with that stem |
| GenerateTemplateGlyphs.Unused | utils/generate_template_glyphs.py:88 | the unused stems are exactly the SVG stems that no map line names, each kept as often as it occurs in the listing, in listing order |
| GenerateTemplateGlyphs.FindUnusedSvgFiles | utils/generate_template_glyphs.py:71-93 | it computes the unused stems of the listing against the map's icons, and prints them sorted |
| GenerateTemplateGlyphs.UnusedMeansNoJob | utils/generate_template_glyphs.py:71-93 | a stem is reported unused exactly when no job `main` runs reads `<svg dir>/<stem>.svg` |
| GenerateTemplateGlyphs.Run | utils/generate_template_glyphs.py:41-68 | the unused-file report appears exactly when no input is missing, and it is then the sorted permutation of the unused stems |
| ConvertSvgToPng.ParseLine | utils/convert_svg_to_png.py:40-51 | only blank lines are skipped; a line without a comma is invalid; otherwise it is the mapping of its stripped fields around the first comma |
| ConvertSvgToPng.MissingInput | utils/convert_svg_to_png.py:56-62 | a mapping whose input is missing leaves the whole map with a job that cannot run |
| ConvertSvgToPng.ProcessMap | utils/convert_svg_to_png.py:40-65 | every job reads an existing file; with all inputs present it runs one job per mapping line and reports every invalid line; otherwise it stops at the first missing input, having done exactly the lines before it |
| ConvertSvgToPng.NonMappingLineSkipped | utils/convert_svg_to_png.py:42-48 | a blank or invalid line adds no job, and the lines around it are still converted |
| ConvertSvgToPng.InvalidLineReported | utils/convert_svg_to_png.py:45-48 | an invalid line is reported, stripped, between the reports of the lines around it |
| ConvertSvgToPng.SameParseUnlessComment | utils/convert_svg_to_png.py:40-51 | a line that does not start with '#' is read the same way by both map scripts |
| ConvertSvgToPng.CommentLineParsed | utils/convert_svg_to_png.py:40-51 | a comment line, which the generator skips, is a mapping here exactly when it has a comma, and invalid otherwise |
| ConvertSvgToPng.CommentMappingOutput | utils/convert_svg_to_png.py:45-53 | such a comment mapping writes to an output name that starts with '#' |
| ConvertSvgToPng.SameJobsWithoutComments | utils/convert_svg_to_png.py:40-65 | on a map without comment lines, both scripts run one job per mapping line, in the same order and with the same output PNG, each reading the same input name from its own SVG directory; they report the same invalid lines; given one directory the jobs are identical |

## Left out

- **File I/O.** The file system is replaced by values. The modelled code is unchanged otherwise.
  - `os.path.getsize` and `np.fromfile` are replaced by the blob as a byte sequence.
  - `open(...).readlines()` and line iteration are replaced by the map's lines. Text decoding and newline translation are not modelled. The trailing newline of a line is removed by the strip in any case.
  - `os.listdir` is replaced by a listing of bare names.
  - `os.path.exists` is replaced by a set of existing paths.
- **Directory creation.** `os.makedirs` (the generator's lines 35-36 and 60-61, the converter's lines 34-35 and 59-60) is not modelled, nor are its failures.
- **Rasterisation.** The cairosvg conversion and its 24-pixel output height are not modelled. A conversion is the `Job` that names its two paths.
- **Printing.**
  - Printed messages are not modelled. They are the warning, the "Converted" line, the headers, and the `.2f` rounding of averages and scales. The model returns the values the messages print.
  - The list of invalid lines stands for the "Invalid line format" messages.
- **Command-line handling.** The argument check and `sys.exit` in `utils/compare_fonts.py` (lines 83-87) are not modelled. Neither is the cairosvg import guard.
- **Base paths.** The paths derived from `__file__` are parameters. The two map scripts name different SVG directories (`assets/icons/lucide/svg` in utils/convert_svg_to_png.py:24-26, `assets/icons/lucide/glyphs` in utils/generate_template_glyphs.py:25-27), so their input directories are separate parameters wherever both scripts appear.
- **Floating point.** Scores, means and scale factors are exact reals. numpy's float64 rounding is not modelled.
- **CompareFonts.GeomMeanOf:** does not compute `math.sqrt`. It records the radicand, and `Denotes` states which real the root is.
- **GlyphGrid.SmartDetectGlyphSize:** of the exceptions the `try` block can catch, only the division by zero of an empty blob is modelled. Memory errors from numpy are not.
- **PyStr.SvgStem:** models `os.path.splitext` only for a bare file name (no directory part), which is what `os.listdir` yields.
- **Failures after the modelled steps.** A missing input ends a run where `open` would raise. Other failures are not modelled: an unreadable or invalid SVG, or an output that cannot be written.
