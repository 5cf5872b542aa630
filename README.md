# cranky-news core, modelled in Dafny

cranky-news turns Christian Science Monitor articles into particle documents for a small
one-bit display. This project models the parts of that pipeline that compute.

- **Resize** (`resize.dfy`): the size arithmetic of `resize_image`. The scale factor is the
  smallest of the two box ratios and 1. When it is below 1, both sides are multiplied by it
  and truncated.
- **Dither** (`dither.dfy`): `atkinson_dither`.
  - A single row-major pass over a two-dimensional working array (`array2<real>`) sets each
    cell to 0 or 255.
  - The pass adds one eighth of the error to up to six later neighbours.
  - A second pass maps the array to a one-bit image.
  - The methods are proved against a functional specification (`Step`, `Sweep`, `Diffused`,
    `Dither`) whose properties are proved as lemmas.
- **ParticlePixels** (`pixels.dfy`): `image_to_particle_pixels`. One `'0'`/`'1'` character per
  pixel, one string per row, and the rows joined by spaces.
- **RowCodec** (`rowcodec.dfy`): the run-length row encoder `compress_pixel_row`.
  - Each maximal run becomes letters, upper case for ink and lower case for background.
  - A run takes one `Z`/`z` per 26 pixels, then one letter for any remainder.
  - A background run at the end of the row is dropped.
  - A width-aware decoder is proved to invert it.
- **Particle** (`particle.dfy`): `convert_to_particle`. It covers the title truncation and ASCII
  filter, the conditional title and metadata entries, and the paragraph loop that drops the
  last paragraph and skips empty ones.
- **TextEditionUrl** (`url.dfy`): `convert_to_text_edition_url`, a substring test and a
  replace-all.
- **Strings** (`strings.dfy`): the Python `str` operations these use (`join`, `in`, `replace`),
  with their algebra. `Split` and `Count` are reference definitions, used to state what `join`
  and `replace` produce.
- **Wrappers** (`wrappers.dfy`): the `Option` type, used for dictionary keys that may be
  missing.

Two points where the model follows the code rather than a looser reading of it:

- `int(width * scale)` truncates toward zero; it does not round. `Resize.Trunc` truncates too.
- The shipped `image_to_particle_pixels` writes plain bits, one character per pixel, and
  `ParticlePixels` models that. The run-length encoder is a separate function, modelled on its
  own as `RowCodec`.

## Model

| member | source | states |
|---|---|---|
| Resize.Trunc | src/image_processor.py:32-33 | `int()` of a real truncates toward zero: for a non-negative argument the result is its floor, for a negative one its ceiling |
| Resize.Min3 | src/image_processor.py:29 | the result is at most each argument and is one of them |
| Resize.Ratio | src/image_processor.py:27-28 | true division: ratio × side = bound; the ratio is below 1 exactly when bound < side |
| Resize.Scale | src/image_processor.py:27-29 | the scale is at most 1; scaled width and height fit the box; it is below 1 exactly when the image is wider or taller than the box; it is 1, or it scales one side exactly onto its bound, so it is the smallest of the two ratios and 1 |
| Resize.MinOfRatios | src/image_processor.py:27-29 | the smallest of two ratios and 1 fits both sides into the box and is 1 or makes one side fill its bound |
| Resize.Shrink | src/image_processor.py:32-33 | a side times a factor below 1, truncated, is smaller than the side and is the floor of side × scale |
| Resize.ResizeImage | src/image_processor.py:22-36 | never enlarges; the size is unchanged exactly when the image already fits; otherwise both sides shrink, each new side is floor(side × scale), and the result fits the box |
| Resize.AspectRatioKept | src/image_processor.py:27-34 | a shrunk image keeps the aspect ratio up to truncation: w'·h − h'·w lies strictly between −h and w |
| Resize.ShrinkKeepsAspect | src/image_processor.py:32-33 | truncating both sides scaled by one factor keeps w'·h and h'·w within one side of each other |
| Resize.TruncatedSide | src/image_processor.py:32-33 | when nw ≤ w·s and h·s < nh + 1, nw·h < nh·w + w: one direction of the aspect bound |
| Resize.FillsBox | src/image_processor.py:27-33 | a shrunk image fills the box along at least one side: its new width is max_width or its new height is max_height |
| Resize.ShrinkToBound | src/image_processor.py:32-33 | a side scaled exactly onto a whole bound truncates to that bound |
| Resize.ShrunkFits | src/image_processor.py:32-33 | a side whose scaled length fits its bound still fits once truncated, and is not negative |
| Resize.ZeroSide | src/image_processor.py:27-33 | for an oversize image and a box of at least 1 × 1, the new height is 0 exactly when the width exceeds max_width times the height, and the new width is 0 exactly when the height exceeds max_height times the width |
| Resize.ZeroHeight | src/image_processor.py:27-33 | the height half of that characterisation |
| Resize.ZeroSideOf | src/image_processor.py:27-33 | the scaled height truncates to 0 exactly when width > max_width × height |
| Resize.TruncZeroIff | src/image_processor.py:29-33 | a truncated scaled side is 0 exactly when the other side is more than its bound times this side, when the scale fills one of the two bounds |
| Resize.Transposed | src/image_processor.py:27-33 | swapping the two sides together with the two bounds swaps the sides of the result |
| Resize.ThinImageCollapses | src/image_processor.py:27-33 | a 1000 × 1 image is given the target size 300 × 0: the computed size has a zero side, which the library call on line 34 rejects |
| Resize.HalvedToFit | src/image_processor.py:27-34 | a 600 × 360 image resizes to exactly 300 × 180 |
| Dither.Quantize | src/image_processor.py:56 | the new pixel is 0 or 255, and 255 exactly when the old value is above 127; its use in a visit is stated by `Dither.StepCell` |
| Dither.ErrorShare | src/image_processor.py:60 | eight shares make up the whole quantisation error: 8 × share = old value − new value; `Dither.ErrorShareBounds` states its size |
| Dither.ErrorShareBounds | src/image_processor.py:56-60 | a cell already at 0 or 255 spreads no error, and a cell within 0 .. 255 spreads a share strictly between −16 and 16 |
| Dither.Set | src/image_processor.py:57 | writing one cell keeps the raster's width and height; `Dither.StepCell` and `Dither.Write` state that the cell takes the new value and nothing else changes |
| Dither.Bump | src/image_processor.py:64-76 | adding to one cell keeps the raster's width and height; `Dither.StepCell` and `Dither.Add` state that the cell gains the share and nothing else changes |
| Dither.BumpIf | src/image_processor.py:63-76 | a guarded addition keeps the raster's width and height, and its guard may hold only for a cell inside the raster; `Dither.StepCell` states that each neighbour inside the raster gains one share and that nothing wraps round to another row |
| Dither.Step | src/image_processor.py:55-76 | one visit keeps the raster's dimensions; what it does to each cell is stated by `Dither.StepCell` |
| Dither.StepCell | src/image_processor.py:55-76 | one visit sets the cell to 255 if it held more than 127, else 0; it adds (old − new)/8 to each in-grid cell of the six-cell Atkinson pattern; every other cell is unchanged, with no wrap-around |
| Dither.StepKeepsEarlier | src/image_processor.py:63-76 | a visit never changes a cell that comes before it in row-major order |
| Dither.RowSweepKeepsEarlier | src/image_processor.py:54-76 | finishing a row leaves every cell before the current one as it was |
| Dither.SweepKeepsEarlier | src/image_processor.py:53-76 | visiting later rows leaves every earlier row as it was |
| Dither.RowSweep | src/image_processor.py:54-76 | visiting the first x cells of row y, left to right, keeps the raster's width and height; `Dither.RowSweepKeepsEarlier` and `Dither.RowDone` state what it changes |
| Dither.Sweep | src/image_processor.py:53-76 | visiting the first y rows, top to bottom, keeps the raster's width and height; `Dither.SweepKeepsEarlier` and `Dither.FinalValue` state what it changes |
| Dither.Diffused | src/image_processor.py:53-76 | the whole pass keeps the raster's dimensions; its contents are stated by `Dither.FinalValue` and `Dither.DiffusedQuantized` |
| Dither.FinalValue | src/image_processor.py:53-57 | after the pass, each cell holds the quantisation of the value it had when the pass reached it |
| Dither.VisitQuantizes | src/image_processor.py:55-57 | the visit of a cell leaves it holding the quantisation of what it held just before |
| Dither.RowDone | src/image_processor.py:53-76 | once its row is finished, a cell holds the quantisation of the value it had when visited |
| Dither.DiffusedQuantized | src/image_processor.py:53-57 | after the pass, every cell holds 0 or 255 |
| Dither.StepOnQuantized | src/image_processor.py:55-76 | visiting a cell that holds 0 or 255 spreads no error and changes nothing |
| Dither.RowSweepOnQuantized | src/image_processor.py:54-76 | a row of a raster holding only 0 and 255 passes through unchanged |
| Dither.SweepOnQuantized | src/image_processor.py:53-76 | a raster holding only 0 and 255 passes through the whole pass unchanged |
| Dither.Write | src/image_processor.py:57 | the array afterwards is the old contents with cell (x, y) set to v |
| Dither.Add | src/image_processor.py:64-76 | the array afterwards is the old contents with e added to cell (x, y) |
| Dither.AddIf | src/image_processor.py:63-76 | the whole new array is the old contents with one cell increased when the guard holds, and unchanged otherwise |
| Dither.VisitCell | src/image_processor.py:55-76 | the array afterwards is one visit of cell (x, y) applied to its old contents |
| Dither.Diffuse | src/image_processor.py:53-76 | the array afterwards is the whole row-major diffusion pass applied to its old contents |
| Dither.ToReal | src/image_processor.py:50 | the working raster has the grayscale image's width and height |
| Dither.Monochrome | src/image_processor.py:79-84 | the one-bit image has the raster's width and height |
| Dither.ToMonochrome | src/image_processor.py:79-84 | the second pass returns exactly the one-bit image of the array: 1 where a cell exceeds 127, 0 elsewhere |
| Dither.Dither | src/image_processor.py:39-86 | the dithered image has the input's width and height |
| Dither.DitherBits | src/image_processor.py:53-84 | every output bit is 0 or 1; it is 1 exactly when the cell ended the pass at 255, and exactly when it held more than 127 when the pass reached it |
| Dither.DitherOfBlackAndWhite | src/image_processor.py:53-84 | an input of only 0 and 255 dithers to plain thresholding: 1 exactly where the input exceeds 127 |
| Dither.AtkinsonDither | src/image_processor.py:39-86 | copying the input into a working array, diffusing in place and reading back gives exactly `Dither(gray)` |
| ParticlePixels.PixelChar | src/image_processor.py:100-101 | a pixel's character is '0' or '1', and '1' exactly when the pixel is 0 |
| ParticlePixels.RowText | src/image_processor.py:96-102 | one character per pixel of the row |
| ParticlePixels.Lines | src/image_processor.py:94-102 | one string per row |
| ParticlePixels.ImageToParticlePixels | src/image_processor.py:89-104 | the nested loops build exactly the rows' texts joined by single spaces |
| ParticlePixels.ParticlePixelsLayout | src/image_processor.py:94-104 | for h ≥ 1 the string has h·w + h − 1 characters; splitting on spaces gives h fields of w characters each; character x of field y is '1' exactly when pixel (x, y) is 0 |
| ParticlePixels.EmptyImage | src/image_processor.py:104 | an image with no rows serialises to the empty string |
| ParticlePixels.WhiteImage | src/image_processor.py:53-104 | an all-white (255) image dithers and serialises to h fields of w '0' characters |
| RowCodec.CompressPixelRow | test_image_compression.py:14-45 | the encoding has no more letters than the row has pixels; what it holds is stated by `RowCodec.CompressIsRunEncoding` and `RowCodec.RoundTrip` |
| RowCodec.Scan | test_image_compression.py:14-45 | the scan only appends to what was written, and adds at most one letter per pixel of the pending run and the rest of the row; `RowCodec.ScanEncodesRuns` states what it writes |
| RowCodec.RunLetters | test_image_compression.py:37-39 | a run of k pixels takes at most k letters, and at least one when k > 0; `RowCodec.RunLettersShape` states the letters |
| RowCodec.DecodePixelRow | test_image_compression.py:14-45 | decoding succeeds exactly when the string is letters standing for at most width pixels; the result is those pixels padded with background to the width; `RowCodec.RoundTrip` shows it inverts the encoder |
| RowCodec.Repeat | test_image_compression.py:37-39 | `c * n`: n copies of one value |
| RowCodec.Bits | test_image_compression.py:14 | a row written as text has one pixel per character |
| RowCodec.Letter | test_image_compression.py:14-17 | a chunk of v pixels, 1 ≤ v ≤ 26, is the v-th letter of the alphabet: upper case for ink, lower case for background |
| RowCodec.LeadLength | test_image_compression.py:42 | the leading run has length between 1 and the row length; its pixels all share the first colour; the next pixel, if any, differs |
| RowCodec.ExpandAppend | test_image_compression.py:42 | the pixels of two run lists are the two pixel sequences concatenated |
| RowCodec.RunsExpand | test_image_compression.py:42-45 | the maximal runs of a row spell the row out again |
| RowCodec.LeadIsRepeat | test_image_compression.py:42 | the leading run is that many copies of the first pixel |
| RowCodec.RunsEnds | test_image_compression.py:26-28 | the first run has the first pixel's colour and the last run the last pixel's |
| RowCodec.RunsMaximal | test_image_compression.py:42-45 | the runs of a row are maximal: non-empty, and neighbours differ in colour |
| RowCodec.RunsAfterRepeat | test_image_compression.py:42 | n pixels of one colour before the other colour form the first run |
| RowCodec.RepeatGrow | test_image_compression.py:42 | a pixel of the pending colour lengthens the pending run by one |
| RowCodec.EncodeAfterRun | test_image_compression.py:42 | a run followed by a pixel of the other colour is written as its own letters, before the letters of the rest |
| RowCodec.ScanEncodesRuns | test_image_compression.py:42-45 | the encoder's left-to-right scan writes the letters of the runs of the pending run plus the rest of the row |
| RowCodec.CompressIsRunEncoding | test_image_compression.py:42-45 | the encoding is the letters of each maximal run, left to right, with a final background run left out |
| RowCodec.RunsOfExpand | test_image_compression.py:42-45 | a maximal run list is recovered from its pixels |
| RowCodec.CompressOfRuns | test_image_compression.py:42-45 | the encoding of the pixels of a maximal run list is that list's letters |
| RowCodec.RunLettersShape | test_image_compression.py:37-39 | a run of k pixels is ⌊k/26⌋ copies of 'Z'/'z', then one letter for a non-zero remainder k mod 26 |
| RowCodec.SingleInkRun | test_image_compression.py:14-17 | a run of k ink pixels, 1 ≤ k ≤ 26, encodes to the single letter 'A' + k − 1 |
| RowCodec.RunLettersAreLetters | test_image_compression.py:14-45 | the letters of a run are ASCII letters |
| RowCodec.EncodeRunsLetters | test_image_compression.py:14-45 | the letters of a run list are ASCII letters |
| RowCodec.CompressAlphabet | test_image_compression.py:14-45 | every character of an encoded row is in A–Z or a–z |
| RowCodec.ScanIgnoresTrailingBackground | test_image_compression.py:26-28 | a background pixel at the end of the row does not change what the scan writes |
| RowCodec.TrailingBackgroundDropped | test_image_compression.py:26-28 | appending a background pixel never changes the encoding |
| RowCodec.TrailingRunDropped | test_image_compression.py:26-28 | appending any number of background pixels never changes the encoding |
| RowCodec.AllBackground | test_image_compression.py:20-23 | a background-only row of any length encodes to the empty string |
| RowCodec.DecodeAppend | test_image_compression.py:42 | decoding a concatenation gives the decoded halves concatenated |
| RowCodec.DecodeRunLetters | test_image_compression.py:37-39 | the letters of a run decode back to the run's pixels |
| RowCodec.DecodeEncodeRuns | test_image_compression.py:42-45 | decoding a run list's letters gives its pixels, less any final background run |
| RowCodec.DecodeRuns | test_image_compression.py:14-45 | decoding a non-empty run list's letters, padded to the width of its pixels, gives its pixels |
| RowCodec.RoundTrip | test_image_compression.py:14-45 | decoding the encoding with the row's width gives the row back |
| RowCodec.EmptyIffNoInk | test_image_compression.py:14-28 | the encoding is empty exactly when the row has no ink pixel |
| RowCodec.Injective | test_image_compression.py:14-45 | two rows of one width with the same encoding are equal |
| RowCodec.ShortInkRuns | test_image_compression.py:14-17 | '1', '11', '111', '1111' encode to 'A', 'B', 'C', 'D' |
| RowCodec.BackgroundOnlyExamples | test_image_compression.py:20-23 | '0', '00', '000', '0000' encode to '' |
| RowCodec.TrailingBackgroundExamples | test_image_compression.py:26-28 | '1000', '110', '11110000' encode to 'A', 'B', 'D' |
| RowCodec.InnerBackgroundExample | test_image_compression.py:31 | '101' encodes to 'AaA' |
| RowCodec.LeadingBackgroundExample | test_image_compression.py:32 | '011' encodes to 'aB' |
| RowCodec.TrailingPairExample | test_image_compression.py:33 | '1100' encodes to 'B' |
| RowCodec.PairsExample | test_image_compression.py:34 | '110011' encodes to 'BbB' |
| RowCodec.LongRunExamples | test_image_compression.py:37 | 27 ones encode to 'ZA' |
| RowCodec.TwoFullRunsExample | test_image_compression.py:38 | 52 ones encode to 'ZZ' |
| RowCodec.LongGapExample | test_image_compression.py:39 | 30 zeros then a one encode to 'zdA' |
| RowCodec.ComplexExample | test_image_compression.py:42 | '1110001100000' encodes to 'CcB' |
| RowCodec.AlternatingExample | test_image_compression.py:45 | '1010101' encodes to 'AaAaAaA' |
| Particle.AsciiOnly | src/particle_converter.py:23 | encoding to ASCII while ignoring errors leaves an all-ASCII string no longer than the input; it is the input exactly when the input is all ASCII |
| Particle.AsciiOnlyKeeps | src/particle_converter.py:23 | a character survives the filter exactly when it is in the input and is below 128 |
| Particle.AsciiOnlyAppend | src/particle_converter.py:23 | the filter works character by character: it distributes over concatenation |
| Particle.Truncated | src/particle_converter.py:20-22 | the result has at most 40 characters; a title of at most 40 is kept; a longer one becomes its first 37 characters plus "..." |
| Particle.DocumentTitle | src/particle_converter.py:18-23 | the document title has at most 40 characters, all ASCII; `Particle.TitleShape` states it case by case |
| Particle.TitleShape | src/particle_converter.py:18-23 | the document title has at most 40 characters, all ASCII; a missing title gives "Untitled"; a short title is kept exactly when it is all ASCII; a long one ends in "..." after the ASCII characters of its first 37 |
| Particle.NonEmpty | src/particle_converter.py:57-62 | keeps at most all paragraphs; keeps all exactly when none is empty |
| Particle.NonEmptyKeeps | src/particle_converter.py:57-62 | a paragraph is kept exactly when it is in the list and is non-empty |
| Particle.NonEmptyAppend | src/particle_converter.py:57-62 | skipping empty paragraphs works element by element: it distributes over concatenation |
| Particle.Paragraphs | src/particle_converter.py:58-62 | one paragraph entry per text, carrying that text, in order |
| Particle.ParagraphsAppend | src/particle_converter.py:57-62 | the entries of two lists of texts are the two entry lists concatenated |
| Particle.BodyStep | src/particle_converter.py:57-62 | one more loop iteration appends the paragraph's entry exactly when the paragraph is non-empty |
| Particle.AppendParagraphs | src/particle_converter.py:57-62 | the loop appends to the content one entry per non-empty paragraph, in order, and nothing else |
| Particle.Content | src/particle_converter.py:31-62 | every entry is a paragraph entry, and there are at most two more entries than body paragraphs; `Particle.TitleEntry`, `Particle.MetadataEntry` and `Particle.BodyEntries` state them in order |
| Particle.Converted | src/particle_converter.py:6-64 | the document has format "particle", a title of at most 40 ASCII characters and only paragraph entries |
| Particle.ConvertToParticle | src/particle_converter.py:6-64 | the format is "particle"; the title is the truncated, ASCII-filtered title; the content is the title entry, the metadata entry, then the body entries, each present as the article allows |
| Particle.TitleEntry | src/particle_converter.py:32-36 | when the title is present and non-empty, the first entry is the untruncated title in asterisks; otherwise the content starts with the metadata |
| Particle.MissingTitle | src/particle_converter.py:18-36 | a missing title gives the document title "Untitled" and no title entry; an empty title gives "" and no title entry |
| Particle.MetadataText | src/particle_converter.py:42-49 | the metadata text is the byline and date that are given, byline first, joined by " \| " |
| Particle.Given | src/particle_converter.py:39-43 | the truth test on `article.get(key)`: true exactly when the key is present and its value is not the empty string |
| Particle.TitleEntries | src/particle_converter.py:32-36 | at most one entry, present exactly when the title is given; `Particle.TitleEntry` states its text and place |
| Particle.MetadataParts | src/particle_converter.py:40-44 | at most two parts, none of them empty; none exactly when neither byline nor date is given; the byline first and the date last when they are given |
| Particle.MetadataEntries | src/particle_converter.py:39-49 | at most one entry, a paragraph entry, present exactly when the byline or the date is given; `Particle.MetadataText` states its text |
| Particle.BodyParagraphs | src/particle_converter.py:52-55 | a missing key or an empty list gives no paragraphs; otherwise the list less its last element, and only that element is removed |
| Particle.AppendMetadata | src/particle_converter.py:39-49 | the metadata step appends exactly the metadata entry, when the byline or the date is given, and nothing else |
| Particle.MetadataEntry | src/particle_converter.py:39-49 | right after any title entry, the metadata entry is the byline and date that are given, byline first, joined by " \| "; with neither there is no entry |
| Particle.EntryAfter | src/particle_converter.py:57-62 | the entry of head + Paragraphs(body) at position \|head\| + i carries body[i] |
| Particle.EntriesAfter | src/particle_converter.py:57-62 | in title entries, then metadata entries, then paragraph entries, the entries after the first two groups are one paragraph entry per text, in order, and nothing follows them |
| Particle.BodyEntries | src/particle_converter.py:52-62 | the remaining entries are the non-empty paragraphs of all but the last, in their original order, and nothing follows them |
| Particle.LastParagraphDropped | src/particle_converter.py:52-55 | the last paragraph never reaches the document, whatever its text |
| Particle.ContentLength | src/particle_converter.py:25-62 | the content has one entry for a given title, one for a given byline or date, and one per non-empty body paragraph |
| Particle.EmptyArticle | src/particle_converter.py:18-64 | an article with no keys converts to title "Untitled" and empty content |
| Strings.Contains | src/rss_parser.py:40 | a string contains only patterns no longer than itself; `Strings.ContainsIffOccurs` states its meaning |
| Strings.Join | src/image_processor.py:104 | every part appears whole, so no part is longer than the result; `Strings.JoinLength` and `Strings.SplitJoin` state the layout |
| Strings.Split | src/rss_parser.py:44 | splitting gives at least one piece; `Strings.SplitTakesFirst` states that the leftmost occurrence is the first joint and the other pieces are the split of what follows it, `Strings.SplitPiecesFree` that no piece holds the separator and `Strings.JoinSplit` that joining the pieces with it rebuilds the string; together they characterise it, for overlapping separators too |
| Strings.ReplaceAll | src/rss_parser.py:44 | a replacement at least as long as the pattern never shortens the string, and one no longer never lengthens it; `Strings.ReplaceIsSplitJoin` and `Strings.ReplaceLength` state the result |
| Strings.Count | src/rss_parser.py:44 | the counted occurrences do not overlap, so count × \|pat\| ≤ \|s\| |
| Strings.ContainsIffOccurs | src/rss_parser.py:40 | the substring test holds exactly when the pattern occurs at some position |
| Strings.ContainsPrefix | src/rss_parser.py:40 | a string contains its own prefix |
| Strings.ContainsAfter | src/rss_parser.py:40 | text put in front keeps an occurrence |
| Strings.ContainsBefore | src/rss_parser.py:40 | text put behind keeps an occurrence |
| Strings.ContainsStart | src/rss_parser.py:40-44 | an occurrence of p + q is an occurrence of p, so the host path's presence implies the host's |
| Strings.JoinConsFirst | src/image_processor.py:104 | text put before the first part stays before the joined string |
| Strings.JoinLength | src/image_processor.py:104 | joining n parts of length w with a one-character separator gives n·w + n − 1 characters |
| Strings.SplitGlue | src/image_processor.py:104 | a piece without the separator joins the first field of what follows it |
| Strings.SplitJoin | src/image_processor.py:104 | splitting parts joined by a one-character separator that no part contains gives the parts back |
| Strings.ReplaceIsSplitJoin | src/rss_parser.py:44 | replace-all is the pieces between occurrences of the pattern, joined by the replacement |
| Strings.ReplaceBySelf | src/rss_parser.py:44 | replacing a pattern by itself changes nothing |
| Strings.JoinSplit | src/rss_parser.py:44 | the pieces between occurrences, joined by the pattern, rebuild the string |
| Strings.SplitPiecesFree | src/rss_parser.py:44 | no piece of a split holds the separator; for a separator that cannot overlap itself, such as " " and "www.csmonitor.com/", every occurrence is therefore a joint that replace rewrites |
| Strings.SplitPrefix | src/rss_parser.py:44 | the first piece of a split is a prefix of the string |
| Strings.FirstPieceFree | src/rss_parser.py:44 | a character that does not start the separator, followed by a separator-free prefix of the rest, gives a separator-free piece |
| Strings.SplitTakesFirst | src/rss_parser.py:44 | when the separator starts nowhere inside a, a + sep + t splits into a followed by the pieces of t: the leftmost occurrence is always the first joint |
| Strings.NoOccurrenceInFirst | src/rss_parser.py:44 | no occurrence of the separator starts inside the first piece of a split |
| Strings.OverlappingSeparator | src/rss_parser.py:44 | with a separator that overlaps itself the leftmost occurrence wins: "aaa" splits on "aa" into "" and "a", and replacing "aa" by "b" gives "ba" |
| Strings.ReplaceLength | src/rss_parser.py:44 | each occurrence replaced changes the length by \|rep\| − \|pat\| |
| Strings.CountPositiveIffContains | src/rss_parser.py:44 | there is something to replace exactly when the pattern occurs |
| Strings.NotContainsShort | src/rss_parser.py:40 | a string shorter than the pattern does not contain it |
| Strings.ReplaceAbsent | src/rss_parser.py:44 | without an occurrence, replace returns the string unchanged |
| Strings.ReplacePresent | src/rss_parser.py:44 | with an occurrence, the result contains the replacement |
| TextEditionUrl.ConvertToTextEditionUrl | src/rss_parser.py:30-44 | the URL never gets shorter, and one without "www.csmonitor.com/" is returned as it is; `TextEditionUrl.UnchangedIff`, `TextEditionUrl.LengthGrowth` and `TextEditionUrl.PiecesKept` state the rest |
| TextEditionUrl.LengthGrowth | src/rss_parser.py:40-44 | the output is 13 characters longer per occurrence of "www.csmonitor.com/" |
| TextEditionUrl.UnchangedIff | src/rss_parser.py:40-44 | the URL is returned unchanged exactly when "www.csmonitor.com/" does not occur in it, including when the host occurs with no slash after it |
| TextEditionUrl.PiecesKept | src/rss_parser.py:40-44 | when the host occurs, the address is its pieces joined by "www.csmonitor.com/" and the result is the same pieces joined by "www.csmonitor.com/text_edition/"; no piece holds "www.csmonitor.com/", and since that string cannot overlap itself (`TextEditionUrl.HostPathNoOverlap`), every occurrence is rewritten |
| TextEditionUrl.HostPathNoOverlap | src/rss_parser.py:40-44 | no proper suffix of "www.csmonitor.com/" is also a prefix of it, so two of its occurrences never share a character |
| TextEditionUrl.NotIdempotent | src/rss_parser.py:44 | there is no guard: converting a converted URL changes it again |
| TextEditionUrl.StartsWithHostPath | src/rss_parser.py:40-44 | a URL that starts with the host path and has no other occurrence gets "text_edition/" inserted once, after the host |
| TextEditionUrl.ArticleExample | src/rss_parser.py:44 | "www.csmonitor.com/World" becomes "www.csmonitor.com/text_edition/World" |
| TextEditionUrl.TwiceExample | src/rss_parser.py:44 | a text-edition URL gets a second "text_edition/" |
| TextEditionUrl.BareHostExample | src/rss_parser.py:40-44 | the bare host with no slash is left alone |

## Left out

- `download_image` and `process_and_save_image` are not modelled. They are the HTTP download, PIL's mode conversion and transparency flattening, the image document and the JSON file write, so they are I/O or library calls.
- PIL is not modelled. `img.convert('L')` is replaced by a grayscale input of integers. `img.resize(..., LANCZOS)` is modelled only by the size it returns. `Image.new('1')` and `load()` become plain arrays and sequences.
- Resize.ResizeImage: only the size handed to `img.resize` is modelled. When truncation makes a side 0 (see `Resize.ZeroSide` and `Resize.ThinImageCollapses`), the imaging library rejects that size and the call raises an error, which nothing in the pipeline catches; the model returns the zero-sided size instead of that failure.
- Resize.Scale: the ratios and products use exact reals, not IEEE-754 doubles. In doubles the product side × (max / side) can land just below a whole number, and `int()` then drops a pixel: 562 × (300 / 562) is 299.99999999999994 in doubles, so a 562 × 100 image becomes 299 × 53 where the model gives 300 × 53; and 49 × (300 / 14700) is 0.9999999999999999, so a 14700 × 49 image gets height 0 where the model gives 1. This rounding is not modelled.
- Resize.FillsBox: like Resize.ShrinkToBound, Resize.ZeroSide, Resize.ZeroHeight, Resize.ZeroSideOf and Resize.TruncZeroIff, it is a fact about exact real arithmetic. With doubles a side that should reach its bound can come out one pixel short, and a side can collapse to 0 one pixel earlier than `Resize.ZeroSide` says, as in the two sizes above.
- Dither.StepCell: the error and the cell values are exact reals, not doubles; rounding in `(old - new) / 8.0` is not modelled.
- Dither.AtkinsonDither: it takes the grayscale rows as a sequence and returns the bits as a sequence. The working raster is an `array2` updated in place, as in the code; the input and output images are not.
- ParticlePixels.ImageToParticlePixels: pixel values are integers, and any non-zero value counts as white, which is how Python's truth test treats a mode '1' pixel.
- RowCodec.CompressPixelRow: `compress_pixel_row` is imported by `test_image_compression.py` but not defined in `src/image_processor.py`. The model defines it from the assertions in `test_image_compression.py` and takes the row as booleans, where `'1'` is ink. The printed compression ratios in that file are not modelled.
- Strings.ReplaceAll: the pattern must be non-empty. Python's behaviour for an empty pattern is not modelled; the code only replaces a fixed non-empty string. The same holds for Strings.Split and Strings.Count.
- Particle.ConvertToParticle: the title is computed at the end rather than first. The computation is pure, so the order makes no difference. A key that is present with the value `None` is not modelled; a missing key is `None` in the model.
- Particle.AppendParagraphs: the paragraph loop lives in this helper method, which the conversion calls.
- `fetch_rss_feed` and `save_particle_json` are not modelled: they are feed parsing and file output.
- `src/html_parser.py` and `src/main.py` are not part of this model: they are HTML traversal with BeautifulSoup, a library outside this repository, and command-line orchestration.
