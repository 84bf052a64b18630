# Image and ROM tooling of the pattern-recognition flow, in Dafny

This project models the Python tools around the FPGA pattern-recognition pipeline of
`major_project`:

- the grey-scale **MIF writer** `image_to_grayscale_mif`. It writes a Memory
  Initialization File with a five-line header, one `ADDR:VALUE;` line per pixel in
  row-major order, and `END;`;
- the two **MIF readers** `mif_to_grayscale_image` and `mif_to_rgb_image`:
  - a line-by-line reading loop that collects WIDTH, DEPTH and an address-to-word
    dictionary;
  - a placement loop that puts each word into a zero-filled image at
    `(addr // width, addr % width)`;
  - for RGB, the word is split into red, green and blue fields, and each is scaled
    back to eight bits;
- the **zebra-crossing simulation**. It scans the centre column (640 // 2 = 320) of a
  grey edge image, counts the dark stripes (at least 20 consecutive rows at or below
  grey level 5) and marks the column in a colour copy of the image;
- the **angle LUT generator**. It writes the cosine and sine ROM tables as 16-bit signed
  Verilog literals `16'shXXXX`, one per line, separated by commas.

Modules:

- `Numerals`, `Strings`, `Radix` and `Raster` hold what the tools share:
  - Python's `strip`, `split`, `replace`, `startswith` and `in`;
  - hexadecimal and decimal text, and the `\d+` search;
  - row-major addressing.
- `MifWriter` is the writer.
- `MifParse` is the readers' loop, written as a state machine with its properties.
- `MifReader` holds the loops as methods and the placement into arrays (`RgbChannels`
  for the RGB word).
- `MifRoundTrip` proves that reading a written file gives the image back.
- `StripeDetector` and `AngleLut` are the other two tools.

The writer pads every value to at least two hexadecimal digits (`:02X`), whatever
`pixel_bits` is.

The grey reader also tests `line == "END;"` after `line.startswith("END")`. That test
can never decide anything, and `MifParse.EndsContent` keeps it only to mirror the code.

## Model

| member | source | states |
|---|---|---|
| MifWriter.HeaderLines | tb/PATTERN_RECOGNITION/image_to_mif.py:47-51 | The five header lines, WIDTH and DEPTH in decimal; `MifRoundTrip.RunHeader` proves a reader takes them back as written. |
| MifWriter.ContentLine | tb/PATTERN_RECOGNITION/image_to_mif.py:58 | `f"{address:X}:{pixel_value:02X};"`; `MifRoundTrip.ContentLineField` proves a reader reads it as that address and value. |
| MifWriter.MifLines | tb/PATTERN_RECOGNITION/image_to_mif.py:43-60 | The whole file as a reference for the writing loops; its layout is `MifLinesShape` and its reading is `WriterReaderRoundTrip`. |
| MifWriter.ImageToGrayscaleMif | tb/PATTERN_RECOGNITION/image_to_mif.py:43-60 | The two nested loops write exactly `MifLines`: the header, the pixels row by row, then `END;`. |
| MifWriter.AppendRow | tb/PATTERN_RECOGNITION/image_to_mif.py:54-58 | The inner loop appends the content lines of one row in column order and leaves the earlier lines alone. |
| MifWriter.MifLinesShape | tb/PATTERN_RECOGNITION/image_to_mif.py:43-60 | The file has depth + 6 lines: the five header lines with WIDTH = pixel_bits and DEPTH = height*width, then at offset 5 + k the line for address k holding the word at `(k / w, k % w)`, and `END;` last. |
| MifWriter.MifLinesAt | tb/PATTERN_RECOGNITION/image_to_mif.py:53-58 | Pixel (i, j) is written at offset 5 + i*w + j with address i*w + j and value image[i][j]. |
| MifWriter.EntryOfAddress | tb/PATTERN_RECOGNITION/image_to_mif.py:53-57 | The content covers the addresses 0 .. depth-1 once each, in increasing order. |
| MifWriter.ByteFieldWidth | tb/PATTERN_RECOGNITION/image_to_mif.py:58 | A word below 256 is written as exactly two hexadecimal digits. |
| Radix.ToHexParses | tb/PATTERN_RECOGNITION/image_to_mif.py:58 | Reading `f"{n:X}"` as hexadecimal gives n back. |
| Radix.PadHexParses | tb/PATTERN_RECOGNITION/image_to_mif.py:58 | Zero padding does not change the value read back from `f"{n:02X}"`. |
| Radix.PadHexWidth | tb/PATTERN_RECOGNITION/image_to_mif.py:58 | A value below 16^w takes exactly w digits. |
| Radix.FirstNumber | tb/PATTERN_RECOGNITION/mif_to_image.py:34 | `int(re.search(r'\d+', line).group())` over ASCII digits; `FirstNumberNone` and `FirstNumberOfField` state when it finds nothing and what it finds in a header. |
| Radix.FirstNumberNone | tb/PATTERN_RECOGNITION/mif_to_image.py:34 | The `\d+` search finds nothing exactly when the line has no ASCII digit. |
| Radix.FirstNumberOfField | tb/PATTERN_RECOGNITION/mif_to_image.py:34-36 | In `WIDTH=<n>;` and `DEPTH=<n>;` the first number found is n. |
| Radix.ParseHex | tb/PATTERN_RECOGNITION/mif_to_image.py:46-47 | `int(_, 16)` succeeds exactly on nonempty strings of hexadecimal digits. |
| Strings.StripSlice | tb/PATTERN_RECOGNITION/mif_to_image.py:30 | `strip()` returns a slice with no whitespace at either end, and only whitespace is cut off. |
| Strings.JoinSplit | tb/PATTERN_RECOGNITION/mif_to_image.py:43 | Gluing the pieces of `split(':')` back with ':' gives the string. |
| Strings.SplitJoin | tb/PATTERN_RECOGNITION/mif_to_image.py:43 | Splitting pieces joined by ':' gives them back when no piece holds ':'. |
| Strings.SplitPieces | tb/PATTERN_RECOGNITION/mif_to_image.py:43 | No piece of a split holds the separator. |
| Strings.SplitInTwo | tb/PATTERN_RECOGNITION/mif_to_image.py:43-44 | `split(':')` yields two pieces exactly when the string is one ':' between two ':'-free strings, and then the pieces are those strings. |
| Strings.RemoveCharChars | tb/PATTERN_RECOGNITION/mif_to_image.py:43 | After `replace(';', '')` no ';' is left, and every other character is present exactly when it was in the line. |
| Raster.Address | tb/PATTERN_RECOGNITION/image_to_mif.py:57 | The row-major address i*width + j; `AddressInjective` and `AddressOnto` prove it a bijection between the grid and the addresses below width*height. |
| Raster.AddressInjective | tb/PATTERN_RECOGNITION/image_to_mif.py:57 | Distinct pixels of a row-major grid have distinct addresses. |
| Raster.AddressOnto | tb/PATTERN_RECOGNITION/mif_to_image.py:61-65 | Every address below width*height is the address of pixel (addr // width, addr % width) of the grid. |
| Raster.SplitOfAddress | tb/PATTERN_RECOGNITION/mif_to_image.py:64-65 | `//` and `%` split an address back into the row and the column that made it. |
| MifReader.ReadMif | tb/PATTERN_RECOGNITION/mif_to_image.py:26-51 | The reading loop of either reader returns what the state machine `MifParse.Parse` reads from the lines: the header fields and pixels, or the exception that escapes. |
| MifReader.ReadLine | tb/PATTERN_RECOGNITION/mif_to_image.py:29-51 | One pass of the loop performs the step the line's kind calls for, with the tests in the reader's order. |
| MifParse.Classify | tb/PATTERN_RECOGNITION/mif_to_image.py:30-41 | Strips the line, then applies the reader's tests in order (the RGB reader's at lines 108-119); `BeginTests`, `EndLineKind` and the header lemmas of `MifRoundTrip` state what the writer's lines are classified as. |
| MifParse.KindOf | tb/PATTERN_RECOGNITION/mif_to_image.py:33-41 | The tests on a stripped line, the first that holds deciding; `BeginTests` relates the two readers' start tests. |
| MifParse.StepLine | tb/PATTERN_RECOGNITION/mif_to_image.py:33-51 | One pass of the loop (the RGB reader's at lines 111-125); `StepIgnoresHeader`, `RgbBadFieldFails`, `SkipNoise` and `DataBeforeBegin` state its effects. |
| MifParse.Parse | tb/PATTERN_RECOGNITION/mif_to_image.py:26-51 | The reading loop over the whole file; the lemmas below state what it keeps, skips and fails on. |
| MifParse.ParseDataLine | tb/PATTERN_RECOGNITION/mif_to_image.py:43-47 | A data line's fields (the RGB reader's at lines 121-124); `DataLineAccepts` characterises the outcome. |
| MifParse.DataLineAccepts | tb/PATTERN_RECOGNITION/mif_to_image.py:43-48 | A data line stores a word exactly when, with every ';' removed, it is two ':'-free fields around one ':' that both read as hexadecimal once stripped, and the word is those two numbers; it is no pair exactly when no such split exists. |
| MifParse.EndTruncates | tb/PATTERN_RECOGNITION/mif_to_image.py:39-40 | Nothing after the END line is read. |
| MifParse.EndLineKind | tb/PATTERN_RECOGNITION/mif_to_image.py:39 | `END;` ends the content for both readers. |
| MifParse.SkipNoise | tb/PATTERN_RECOGNITION/mif_to_image.py:41-51 | Deleting a line that is no header, no start or end, and no storable data line changes nothing that is read. |
| MifParse.NoContentNoPixels | tb/PATTERN_RECOGNITION/mif_to_image.py:37-41 | Lines that never enter the content store nothing, and the reader is still outside the content after them. |
| MifParse.NoBeginNoPixels | tb/PATTERN_RECOGNITION/mif_to_image.py:37-41 | A file with no line that enters the content yields no pixels. |
| MifParse.DataBeforeBegin | tb/PATTERN_RECOGNITION/mif_to_image.py:41 | A data line before the first line that enters the content can be deleted without changing what is read. |
| MifParse.HeaderLineNeverData | tb/PATTERN_RECOGNITION/mif_to_image.py:33-36 | Inserting a WIDTH or DEPTH line that holds a number changes neither the success of the read nor the pixels. This holds even inside the content. |
| MifParse.RunIgnoresHeader | tb/PATTERN_RECOGNITION/mif_to_image.py:29-51 | The WIDTH and DEPTH fields do not influence the pixels, the end or the failure of the read. |
| MifParse.StepIgnoresHeader | tb/PATTERN_RECOGNITION/mif_to_image.py:29-51 | A single line steps two states that agree on the content flag and the pixels alike. |
| MifParse.LastWriteWins | tb/PATTERN_RECOGNITION/mif_to_image.py:48 | When an address appears twice in the content, the later line's value is kept. |
| MifParse.RgbBadFieldFails | tb/PATTERN_RECOGNITION/mif_to_image.py:121-125 | Once inside the content, a data line with a field that is not hexadecimal makes the whole RGB read fail with that error, whatever follows. (The grey reader's `continue`, lines 49-51, is covered by `SkipNoise`.) |
| MifParse.BeginTests | tb/PATTERN_RECOGNITION/mif_to_image.py:115-116 | Every line that starts the RGB reader's content starts the grey reader's content too (`"BEGIN" in line`, line 37). |
| MifReader.CellOfAddress | tb/PATTERN_RECOGNITION/mif_to_image.py:61-65 | Cell (r, c) receives address addr exactly when addr is below width*height and r, c are addr // width and addr % width. |
| MifReader.PlaceGrey | tb/PATTERN_RECOGNITION/mif_to_image.py:57-66 | A fresh height-by-width uint8 image. Each cell holds the value read for its address, or 0 when there is none; addresses at or beyond width*height are dropped. |
| MifReader.Channels | tb/PATTERN_RECOGNITION/mif_to_image.py:152-159 | The three scaled channels each fit a byte. |
| MifReader.PlaceRgb | tb/PATTERN_RECOGNITION/mif_to_image.py:131-159 | A fresh height-by-width-by-3 image. Each cell holds the scaled red, green and blue of its address's word in planes 0, 1 and 2, or black. |
| MifReader.MifToGrayscaleImage | tb/PATTERN_RECOGNITION/mif_to_image.py:22-66 | Either the reader's exception, or the image `PlaceGrey` makes from the pixels `Parse` reads. |
| MifReader.MifToRgbImage | tb/PATTERN_RECOGNITION/mif_to_image.py:100-159 | Either the reader's exception, or the image `PlaceRgb` makes from the pixels `Parse` reads. |
| RgbChannels.Blue | tb/PATTERN_RECOGNITION/mif_to_image.py:152 | `pixel_value & B_mask` is below 2^B_bits. |
| RgbChannels.Green | tb/PATTERN_RECOGNITION/mif_to_image.py:153 | `(pixel_value >> B_bits) & G_mask` is below 2^G_bits. |
| RgbChannels.Red | tb/PATTERN_RECOGNITION/mif_to_image.py:154 | `(pixel_value >> (B_bits + G_bits)) & R_mask` is below 2^R_bits. |
| RgbChannels.ScaleTo8 | tb/PATTERN_RECOGNITION/mif_to_image.py:140-159 | `int(channel * 256 / 2**bits)`; `ScaleBound` and `ScaleLossless` state its range and exactness. |
| RgbChannels.PackUnpack | tb/PATTERN_RECOGNITION/mif_to_image.py:152-154 | Repacking the extracted R, G and B fields gives the word's low r+g+b bits, so only the bits above the fields are lost. |
| RgbChannels.UnpackPack | tb/PATTERN_RECOGNITION/mif_to_image.py:152-154 | Channels that fit their fields, packed with blue lowest, are extracted unchanged. |
| RgbChannels.FieldsUnpack | tb/PATTERN_RECOGNITION/mif_to_image.py:152-154 | The mask-and-shift extraction undoes the mixed-radix packing. |
| RgbChannels.ScaleBound | tb/PATTERN_RECOGNITION/mif_to_image.py:157-159 | A channel that fits its field scales to a value below 256. |
| RgbChannels.ScaleLossless | tb/PATTERN_RECOGNITION/mif_to_image.py:140-159 | For at most eight bits, scaling by 256 / 2^bits is exact and invertible: the byte's low 8-bits bits are zero. |
| MifRoundTrip.ContentLineField | tb/PATTERN_RECOGNITION/image_to_mif.py:58 | The writer's content line is read as the data word (address, value) it was written from. |
| MifRoundTrip.HeaderNumber | tb/PATTERN_RECOGNITION/mif_to_image.py:34-36 | The number the reader finds in `WIDTH=<n>;` or `DEPTH=<n>;` is n. |
| MifRoundTrip.RunHeader | tb/PATTERN_RECOGNITION/image_to_mif.py:47-51 | The five header lines leave the reader with WIDTH = pixel_bits, DEPTH = depth, inside the content, and no pixels. |
| MifRoundTrip.RunRender | tb/PATTERN_RECOGNITION/image_to_mif.py:53-58 | Reading the content lines stores each written entry, in order. |
| MifRoundTrip.WriterReaderRoundTrip | tb/PATTERN_RECOGNITION/image_to_mif.py:43-60 | Either reader reads the writer's file without failure. It gets WIDTH and DEPTH as written and, for every address below the depth, exactly the word written there. |
| MifRoundTrip.GreyPixelsRoundTrip | tb/PATTERN_RECOGNITION/mif_to_image.py:57-66 | Placing the read words at the image's own resolution gives every pixel of the written grid. |
| MifRoundTrip.GridBytes | tb/PATTERN_RECOGNITION/mif_to_image.py:66 | Grey words below 256 fit the uint8 image. |
| MifRoundTrip.GreyImageRoundTrip | tb/PATTERN_RECOGNITION/mif_to_image.py:57-66 | Writing a grey image of bytes and reading it back with the grey reader gives the same image, pixel for pixel. |
| StripeDetector.RunStartFacts | tb/PATTERN_RECOGNITION/zebra_crossing_sim.py:19-26 | The remembered streak start is the top of the current dark run: every row from it down is dark, and the row above it is not. |
| StripeDetector.RunEndFacts | tb/PATTERN_RECOGNITION/zebra_crossing_sim.py:31-34 | The row that closes a streak is the first non-dark row below it. |
| StripeDetector.StreakDark | tb/PATTERN_RECOGNITION/zebra_crossing_sim.py:25-26 | On a dark row the streak opens at that row, or stays at its start. |
| StripeDetector.DarkStep | tb/PATTERN_RECOGNITION/zebra_crossing_sim.py:23-29 | A dark row turns green and changes nothing above it. |
| StripeDetector.CloseStep | tb/PATTERN_RECOGNITION/zebra_crossing_sim.py:31-48 | A non-dark row turns the rows of the run above it red exactly when that run has at least 20 rows. It turns itself blue when its level is at least 100, and otherwise keeps its grey. |
| StripeDetector.FinalStep | tb/PATTERN_RECOGNITION/zebra_crossing_sim.py:50-55 | A run still open after the last row turns red when it has at least 20 rows. The column then has its final colours. |
| StripeDetector.PaintRed | tb/PATTERN_RECOGNITION/zebra_crossing_sim.py:38-39 | Rows from .. to-1 of the centre column become red; nothing else changes. |
| StripeDetector.MarkCentreColumn | tb/PATTERN_RECOGNITION/zebra_crossing_sim.py:14-55 | The scan returns `NumStripes` of the column. The centre column ends with `FinalColour` on every row, and no other column is written. |
| StripeDetector.GreyToBgr | tb/PATTERN_RECOGNITION/zebra_crossing_sim.py:11 | The colour copy holds (v, v, v) for every grey level v. |
| StripeDetector.ZebraCrossingSim | tb/PATTERN_RECOGNITION/zebra_crossing_sim.py:11-55 | The result is the number of stripes. Every row of the centre column has its final colour: red for a dark run of at least 20 rows (the bottom run too), green for a shorter dark run, blue for a level of at least 100, and its grey otherwise. Every other pixel is its grey. |
| StripeDetector.RunsMaximal | tb/PATTERN_RECOGNITION/zebra_crossing_sim.py:22-44 | The reference list of runs holds only maximal dark runs, in order, each ending before the next starts. |
| StripeDetector.RunsCover | tb/PATTERN_RECOGNITION/zebra_crossing_sim.py:22-26 | Every dark row lies in one run of the list. |
| StripeDetector.RunOfRow | tb/PATTERN_RECOGNITION/zebra_crossing_sim.py:34-39 | The run the scan measures for a dark row is a run in the reference list. |
| StripeDetector.ClosedFrom | tb/PATTERN_RECOGNITION/zebra_crossing_sim.py:33-41 | From each run boundary on, the rows that add to `num_stripes` are exactly the ends of the listed runs of at least 20 rows that a non-dark row follows. |
| StripeDetector.StripeCountAgrees | tb/PATTERN_RECOGNITION/zebra_crossing_sim.py:33-41 | The scan's count equals the number of maximal dark runs of at least 20 rows that a non-dark row closes. |
| StripeDetector.NoCloseInRun | tb/PATTERN_RECOGNITION/zebra_crossing_sim.py:23-29 | Dark rows never add to the count. |
| StripeDetector.BottomRunNotCounted | tb/PATTERN_RECOGNITION/zebra_crossing_sim.py:50-55 | A long run that reaches the last row is not counted: only one more non-dark row below it would add one. |
| AngleLut.Bits16 | rtl/PATTERN_RECOGNITION/angle_lut.py:21 | `val & 0xFFFF` on an int16 is val for val >= 0 and val + 65536 below 0. |
| AngleLut.Signed16 | rtl/PATTERN_RECOGNITION/angle_lut.py:19-21 | A 16-bit pattern read as two's complement is negative exactly when it is at least 0x8000. |
| AngleLut.SignedBits | rtl/PATTERN_RECOGNITION/angle_lut.py:19-21 | Reading the bit pattern as two's complement gives every int16 back. |
| AngleLut.ToHex16 | rtl/PATTERN_RECOGNITION/angle_lut.py:20-21 | `16'sh` and `val & 0xFFFF` in four upper-case hexadecimal digits; `ToHex16Shape`, `ToHex16RoundTrip` and `ToHex16Injective` state its form, that it reads back, and that it is injective. |
| AngleLut.ToHex16Shape | rtl/PATTERN_RECOGNITION/angle_lut.py:20-21 | `to_hex16` is `16'sh` followed by exactly four upper-case hexadecimal digits. |
| AngleLut.ToHex16RoundTrip | rtl/PATTERN_RECOGNITION/angle_lut.py:20-21 | The literal of every int16 reads back as that value. |
| AngleLut.ToHex16Injective | rtl/PATTERN_RECOGNITION/angle_lut.py:20-21 | Two samples have the same literal exactly when they are equal. |
| AngleLut.EntryLayout | rtl/PATTERN_RECOGNITION/angle_lut.py:42-43 | A table line is eight spaces, the nine-character literal of the sample, and a comma exactly when the index is below THETA_STEPS - 1. |
| AngleLut.EmitTable | rtl/PATTERN_RECOGNITION/angle_lut.py:41-43 | One line per sample, in order, the i-th being the entry for sample i at index i (the sine table, lines 49-51, is the same loop). |
| AngleLut.OnlyLastEntryBare | rtl/PATTERN_RECOGNITION/angle_lut.py:42 | In a table of THETA_STEPS = 180 entries, a line ends with a comma exactly when it is not the last. |
| AngleLut.TableRoundTrip | rtl/PATTERN_RECOGNITION/angle_lut.py:49-51 | The literal in each table line reads back as the sample it came from. |

## Left out

- The RGB-to-grey quantisation of the writer (image_to_mif.py lines 26-34) uses floating point. The writer model takes the grid of grey words as given.
- The PIL, numpy and OpenCV file I/O, the saved verification images, the output file names and the prints are left out. So are the `__main__` drivers, including the WIDTH == 8 dispatch between the readers (mif_to_image.py 177-198). The files are sequences of lines and the images are sequences or arrays.
- Hexadecimal parsing accepts only nonempty strings of digits `0-9A-Fa-f`. The `0x` prefix, `_` separators and a sign, which `int(_, 16)` also accepts, are not modelled; the writer never produces them.
- Radix.FirstNumber: only the ASCII digits 0-9 count. Python's `\d` also matches other Unicode decimal digits, so `"WIDTH=٨;"` gives 8 in Python but `HeaderWithoutNumber` here. Python 3.11 and later also make `int()` raise ValueError on a run of more than 4300 decimal digits; the model reads a run of any length.
- Radix.FirstNumberNone: "no digit" means no ASCII digit, for the reason in the previous line.
- `re.search` on a header line with no digit returns None, and the read crashes with an AttributeError. This is modelled as the error `HeaderWithoutNumber` rather than an exception.
- MifReader.PlaceGrey: requires that every word at an in-range address is below 256. Storing a larger Python int into a uint8 array (wrap-around or OverflowError, depending on the numpy version) is not modelled.
- RgbChannels.ScaleTo8: for channels wider than eight bits the float factor 256 / 2^bits is modelled as a truncating division. Float rounding is not modelled.
- Both placement loops visit the dictionary's keys in an arbitrary order instead of Python's insertion order. Distinct keys write distinct cells, so the result is the same.
- StripeDetector.MarkCentreColumn: the colour image is a grid of (blue, green, red) pixels, not a height-by-width-by-3 byte array. The source only writes whole pixels.
- The prints of the zebra script (lines 8, 40, 56, 61-62) and its loading and saving of images are left out. `cv2.imread` failing is left out too.
- StripeDetector.IsImage: the image must be wider than 320 pixels, because `row[320]` otherwise raises an IndexError. That crash is not modelled.
- AngleLut: the samples are an input sequence. The float `cos`/`sin`, `np.round` and the casts that produce them are not modelled.
- AngleLut: the Verilog boilerplate around the two tables (module header, braces, `always_comb`) is not modelled.
- AngleLut.Bits16: `val & 0xFFFF` is taken on the mathematical integer, as with numpy's value-based casting. Newer numpy refuses a Python int operand out of int16's range, and that behaviour is not modelled.
- The helper scripts resize_image.py, resize_images.py, trial_kernels.py and generate_signal.py are not part of this model.
