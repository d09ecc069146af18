# DataMatrixCode batch tool, modelled in Dafny

DataMatrixCode turns a spreadsheet column of product codes into Data Matrix
images. The tool has four scripts:

- `src/extract_codes.py` strips every first-column cell of the sheet. It
  prints a preview of the first ten rows and the row count. It writes one row
  per line to `output.txt`.
- `src/generate_datamatrix.py` reads `output.txt` back and keeps the stripped,
  non-blank lines. It encodes each code as a Data Matrix symbol, enlarges the
  bitmap five times with nearest-neighbour resampling, and saves it as
  `datamatrix_codes/code_NNNN.png`. A failing code is reported and skipped.
  Progress is printed every hundred items.
- `src/process_codes.py` does both steps in one script, with its own
  versions of them: extraction prints no preview, and generation prints no
  item count. Extraction always runs. Generation runs only when the sheet had
  at least one data row.
- `src/generate_datatrix.py` is a PDF-producing driver. It finds the
  workbook, asks for the page size and a caption, extracts the codes, caps
  them in debug mode, and calls the PDF builder only for a non-empty list.
  Any error is caught at top level and reported.

The model has these modules:

- `CodeList`: Python's `str.strip`, text-mode newline translation, file line
  iteration, the one-code-per-line writer, and the strip-and-filter reader. It
  proves the write/read round trip.
- `Naming`: the `code_{i:04d}` file names and their injectivity.
- `Raster`: RGB images, `Image.frombytes`, and NEAREST resampling. It proves
  that a 5× enlargement replicates each pixel into a 5-by-5 block and shrinks
  back exactly.
- `Batch`: the per-item loop shared by both generators. It is a method over a
  map from file paths to images and an append-only log of printed messages.
  Lemmas state failure isolation, progress reporting and error reporting.
- `ProcessCodes`, `GenerateDatamatrix` and `ExtractScript`: the three
  scripts' entry points, as methods returning the written file content, the
  image directory and the log.
- `GenerateDatatrix`: the driver, as a `Config` class whose workbook path and
  unit flag `RunMain` updates, plus a trace specification `Run` and lemmas
  about it.

The spreadsheet reader, the Data Matrix encoder, the image library's file
output, the console and the PDF builder are not modelled as code. They become
inputs: the sheet is the sequence of its first-column cells, the encoder is a
function from a code to a symbol or an error text, files are a map from path
to image, prints are `Console.Message` values, and each driver collaborator is
a value that either returns or raises.

## Model

| member | source | states |
|---|---|---|
| CodeList.Strip | src/process_codes.py:19 | the result has no leading or trailing whitespace and is a slice of the input with only whitespace cut off either side |
| CodeList.StripPadded | src/process_codes.py:60 | stripping a trimmed string padded with whitespace on both sides gives exactly that string |
| CodeList.StripIdempotent | src/process_codes.py:60 | stripping twice is the same as stripping once |
| CodeList.StripAll | src/extract_codes.py:12 | definition, unfolded: the stripped column has one entry per cell, entry k being cell k stripped |
| CodeList.Universal | src/process_codes.py:59 | text read in text mode contains no carriage return |
| CodeList.UniversalKeeps | src/generate_datamatrix.py:29 | text without carriage returns is read unchanged |
| CodeList.Lines | src/process_codes.py:60 | the lines yielded concatenate back to the file, none is empty, each has '\n' only as its last character, and all but the last end with '\n' |
| CodeList.JoinedSnoc | src/process_codes.py:26-27 | writing one more code appends the code and a newline to the file |
| CodeList.LinesOfJoined | src/process_codes.py:25-27 | when no code holds a line break, the written file reads back as one line per code, the code followed by '\n' |
| CodeList.Kept | src/process_codes.py:60 | a line yields no code exactly when it strips to nothing, and otherwise exactly one code, the stripped line |
| CodeList.Clean | src/process_codes.py:60 | the filtered list is no longer than the lines, and every code in it is non-empty and trimmed (what the codes are is stated by `CodeList.CleanIsStripFilter`) |
| CodeList.CleanIsStripFilter | src/process_codes.py:60 | the reader's filter gives exactly the stripped lines with the blank ones dropped, in file order |
| CodeList.CleanAppend | src/process_codes.py:60 | filtering works line by line and keeps file order |
| CodeList.NonEmptyKeeps | src/generate_datamatrix.py:30 | a list with no empty code passes the non-blank filter unchanged |
| CodeList.ReadCodes | src/process_codes.py:59-60 | the codes read from any file are exactly its stripped non-blank lines in file order, after newline translation and line splitting; each is non-empty, trimmed and free of line breaks |
| CodeList.ReadWritten | src/process_codes.py:25-27 | codes already trimmed and without line breaks, written and read back, give exactly the non-empty ones in their original order |
| CodeList.ReadWrittenExactly | src/generate_datamatrix.py:29-30 | non-empty trimmed codes without line breaks survive writing and reading unchanged |
| CodeList.ReadIsStable | src/generate_datamatrix.py:30 | writing the codes read and reading them again yields the same codes |
| CodeList.ExtractedRoundTrip | src/process_codes.py:19-27 | a column whose stripped cells hold no line break (line breaks at either end of a cell are stripped off) is written and read back as its non-blank stripped cells in row order |
| CodeList.ColumnLines | src/extract_codes.py:23-25 | when no stripped cell holds a line break, the file has exactly one line per row, blank rows included, and line k is cell k stripped followed by '\n' |
| CodeList.BlankColumnReadsEmpty | src/process_codes.py:60 | a column of blank cells reads back as no codes at all |
| CodeList.WriteLines | src/extract_codes.py:23-25 | the write loop produces the one-code-per-line file |
| Naming.ValueOfDecimal | src/process_codes.py:65 | the digits of a number's decimal form denote that number |
| Naming.DecimalLength | src/process_codes.py:65 | a number's decimal form has at most k digits exactly when the number is below 10^k |
| Naming.FourDigitsValue | src/process_codes.py:65 | the `04d` form is all digits, denotes the number, and is the decimal form zero-padded to width four |
| Naming.CodeNameShape | src/process_codes.py:65 | the name starts with `code_` and its remainder is a digit string denoting the item number |
| Naming.CodeNameInjective | src/process_codes.py:65 | two items get the same name exactly when they are the same item, so duplicate codes never share a file |
| Naming.CodeNameWidth | src/process_codes.py:65 | the numeric part is exactly four characters exactly when the item number is below 10000 |
| Naming.ImagePathParts | src/process_codes.py:49 | the path is the image directory, a slash, the name, and the `.png` extension |
| Naming.ItemPathInjective | src/generate_datamatrix.py:22 | distinct items are saved to distinct paths |
| Raster.FromBytes | src/process_codes.py:43 | the raster has the symbol's width and height and a full row of pixels per line |
| Raster.FromBytesAt | src/process_codes.py:43 | definition, unfolded, with the offset proved in range: pixel (x, y) is the red, green and blue bytes at offset 3·(y·width + x) |
| Raster.Nearest | src/process_codes.py:46 | NEAREST resampling reads a source column inside the source image |
| Raster.Resize | src/process_codes.py:46 | the resized image is well formed and has the requested size |
| Raster.ResizeAt | src/process_codes.py:46 | definition, unfolded: each output pixel is the source pixel under its centre (Pillow's NEAREST rule) |
| Raster.NearestByFactor | src/process_codes.py:46 | when enlarging by a whole factor k, output column x reads source column x / k |
| Raster.ResizeByFactor | src/process_codes.py:46 | a k-fold enlargement copies each source pixel into a k-by-k block |
| Raster.ResizeBack | src/generate_datamatrix.py:19 | shrinking a k-fold enlargement back to the original size restores the image exactly |
| Batch.Bitmap | src/generate_datamatrix.py:16 | the encoder's bitmap becomes an image of the symbol's size |
| Batch.Render | src/process_codes.py:37-46 | an item fails exactly when the encoder fails, with the encoder's error, and otherwise yields a well-formed image five times the symbol's width and height |
| Batch.RenderReplicates | src/generate_datamatrix.py:19 | the saved image repeats each bitmap pixel in a 5-by-5 block |
| Batch.RenderShrinksBack | src/generate_datamatrix.py:16-19 | shrinking the saved image back to the symbol's size gives the encoder's bitmap |
| Batch.Results | src/process_codes.py:63-65 | definition, unfolded: one outcome per code, outcome k being the rendering of code k |
| Batch.StoreSaved | src/process_codes.py:65 | each successful item's image is in the directory under its own path |
| Batch.StoreOther | src/process_codes.py:49 | a path belonging to no successful item keeps its old content, or stays absent |
| Batch.StoreKeys | src/process_codes.py:63-69 | afterwards, files exist exactly for the old paths plus the paths of the successful items |
| Batch.FailureLeavesGap | src/process_codes.py:68-69 | a failed item's path keeps its old content; no later image is shifted into it |
| Batch.Isolation | src/process_codes.py:63-69 | what is left under an item's path depends on that item's code alone, however the other items fare |
| Batch.ProgressReported | src/process_codes.py:66-67 | progress is printed for n exactly when n is a multiple of 100 and item n succeeded |
| Batch.ErrorReported | src/process_codes.py:68-69 | an error naming a code and an error text is printed exactly when some item with that code failed with that text |
| Batch.Attempt | src/process_codes.py:64-69 | one item: on success its image is stored under its own path and progress is printed at multiples of 100; on failure nothing is stored and the code and error are printed |
| Batch.GenerateAll | src/generate_datamatrix.py:35-41 | every code goes to the encoder once, in order, and the loop leaves the directory and log that the specification functions describe |
| ProcessCodes.ExtractCodes | src/process_codes.py:6-30 | writes the stripped column one row per line, returns the row count, and prints the start, count and done messages |
| ProcessCodes.GenerateDatamatrixCodes | src/process_codes.py:51-71 | generates exactly the codes read back from the file, between the start and end messages |
| ProcessCodes.Pipeline | src/process_codes.py:73-81 | with no rows, no image is written and the skip message follows extraction; with rows, the generation step runs over the codes read back |
| ProcessCodes.BlankSheetMakesNoImages | src/process_codes.py:78-79 | a sheet of blank rows passes the row-count test but reads back no code, writes no image, and the pipeline log has nothing between the start and end of generation |
| ProcessCodes.PipelineCodes | src/process_codes.py:19-60 | when no stripped cell holds a line break, the codes generated are the non-blank stripped cells in row order |
| GenerateDatamatrix.Generate | src/generate_datamatrix.py:24-43 | a missing `output.txt` stops the script before it prints or saves anything; otherwise the count of codes read is printed and the loop runs over them |
| ExtractScript.Preview | src/extract_codes.py:15-17 | the debug preview is a heading and then rows 1 to min(10, n), each numbered from 1 with its value |
| ExtractScript.Run | src/extract_codes.py:11-27 | the file holds one stripped cell per line; the preview shows rows 1 to min(10, n), each numbered from 1 with its stripped value; the printed total is the row count |
| GenerateDatatrix.Slice | src/generate_datatrix.py:19 | `codes[:stop]` is a prefix of length min(stop, n) for a non-negative stop and max(0, n + stop) for a negative one |
| GenerateDatatrix.Run | src/generate_datatrix.py:1-29 | every run starts by looking for the workbook and has at least one more step |
| GenerateDatatrix.RunMain | src/generate_datatrix.py:1-29 | produces the trace `Run` describes, sets the workbook path once it is found, and sets the millimetre flag exactly when the page-size answer is "2" |
| GenerateDatatrix.PdfAtMostOnce | src/generate_datatrix.py:23-24 | the PDF builder is called at most once per run |
| GenerateDatatrix.PdfCall | src/generate_datatrix.py:12-24 | the PDF builder is called exactly when every earlier step returned and the capped list is non-empty, and it gets that list and the one caption entered |
| GenerateDatatrix.DebugCap | src/generate_datatrix.py:18-19 | in debug mode the list becomes its first min(n, MAX_PAGES) codes in order; otherwise it is unchanged |
| GenerateDatatrix.ZeroCapBuildsNothing | src/generate_datatrix.py:18-27 | with debugging on and a cap of zero, no PDF is built and the no-codes message ends the run |
| GenerateDatatrix.StepOrder | src/generate_datatrix.py:2-15 | workbook discovery precedes both prompts, which precede extraction, and each step runs only if the one before it returned |
| GenerateDatatrix.ErrorEndsRun | src/generate_datatrix.py:2-29 | an error is reported only as the last step, and exactly when some step raised |

## Left out

- Spreadsheet reading (`pandas.read_excel` with `skiprows=1`, `dtype=str`, `na_filter=False`, then `astype(str)`) is not modelled. The scripts take the first-column cells of the data rows, after the header, as given strings.
- Data Matrix encoding (libdmtx) is not modelled. It is a parameter `Batch.Encoder` that returns a symbol or an error text. A failure to encode the code as UTF-8 counts as an encoder failure.
- `Image.frombytes` rejecting a buffer of the wrong length is not modelled. The `Batch.Symbol` type encodes the encoder's guarantee that the buffer holds three bytes per pixel of a non-empty bitmap.
- Batch.Render: an exception from `Image.save` (a full disk, missing permissions) is not modelled; only encoder failures make an item fail. PNG encoding is not modelled; a saved file is the image itself.
- `os.makedirs` and the directory test are not modelled; the image directory is a map from path to image that is assumed to be writable.
- In `src/process_codes.py`, `output.txt` cannot be missing when it is read, because extraction has just written it. In `src/generate_datamatrix.py` a missing file is modelled as `None`.
- Decoding `output.txt` as UTF-8 is not modelled; files are sequences of characters.
- Windows newline translation on writing is not modelled; writing appends '\n'. Reading does translate "\r\n" and lone '\r' to '\n'.
- Whitespace beyond Latin-1 is not modelled. `CodeList.IsSpace` is Python's whitespace set restricted to ASCII and Latin-1; wider Unicode spaces such as U+2028 or U+3000 are not stripped by the model.
- CodeList.ExtractedRoundTrip: requires that no cell keeps a line break once stripped; line breaks at either end of a cell are cut off with the other whitespace and are allowed. A cell with a line break inside its stripped text is read back as several codes, and nothing is proved about that case. The same holds for CodeList.ColumnLines and ProcessCodes.PipelineCodes.
- Console formatting is not modelled: each print is a `Console.Message` value, and the preview's `(Type: <class 'str'>)` suffix is left out because every cell is a string.
- Raster.Nearest: the image library computes the resampling positions in floating point; the model uses the exact rational centre `(x + 1/2) · from / to`.
- In `src/generate_datatrix.py`, `find_excel_file`, `extract_codes_from_excel` and `create_pdf_with_codes` are empty stubs. Their outcomes are inputs in `GenerateDatatrix.Environment`. Page layout and PDF assembly have no code and are left out.
- `src/generate_datatrix.py` defines neither `CONFIG` nor `console`. The model takes `CONFIG` to be the `GenerateDatatrix.Config` object, with its debug switch and page cap fixed during a run, and takes prints to be trace steps.
- The stubs return `None`, so run as written `extract_codes_from_excel` yields no list. The model takes extraction to return a list of codes or raise.
- GenerateDatatrix.RunMain: an exception raised by a print, or by the handler's own print, is not modelled. Interrupts, which the handler does not catch, are not modelled either.
