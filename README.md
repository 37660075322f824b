# xpm2svg core, modelled in Dafny

`xpm2svg.py` turns an XPM pixel image into a drawing of toy bricks. This project models its
two computing parts and proves what they promise:

- **The XPM reader** (`Util._stripQuotes` and `XpmLoader`). It skips to the first quoted
  line and reads the header `width height numcol cwidth` from it. It then reads `numcol`
  colour-table lines into a map from a `cwidth`-character code to a colour string. Last, it
  reads `height` pixel lines into a grid of `width` codes per row. The file is a sequence
  of lines read through a cursor. Reading past the end gives the empty string, as
  `readline` does at end of file. The Python exceptions become `Err` values of `Types.Error`.
- **The blockizer** (`make_block`, `blockize` and the constant `k_blank`). It scans each
  row left to right. It cuts the row into runs of one non-blank colour, each at most four
  cells long. Each run becomes a block `(left, row, length, pins, color)`, and a pin is set
  where nothing lies above the cell.

Files:

- `types.dfy`: `Option`, `Result`, the error kinds, `Count` (the length of `range(n)`) and
  `Min`.
- `pystr.dfy`: the handful of Python string operations used: `find`, `rfind`, slicing,
  `split(' ')`, `int`, and the substring search `MatchAt`/`Contains` that stands for
  `re.search(r'c None', line)`.
- `util.dfy`: `_stripQuotes`.
- `loader.dfy`: the class `XpmLoader`, whose methods fill its fields in loops as the
  source does. Beside it are the functions the methods are proved against: `ParseXpm`
  and its parts `ParseHeader` (with `HeaderLine` and `HeaderValues`) and `ParseBody`
  (with `ColormapAfter` and `PixelRows`).
- `blockizer.dfy`: the scan of one row as a function of its cells (`ScanTo`), and
  `BlockizeRow`/`Blockize` as loops proved equal to it. It also holds the properties of
  the yielded blocks: bounds, colour, pins, order, coverage, disjointness and maximality.

The model follows the code where it differs from the XPM format the program was written for:

- A colour-table line containing `c None` adds no entry and leaves any earlier entry for
  its code as it was. A code whose every line says `c None` gets no entry at all
  (`Loader.CNoneCodeAbsent`), so a pixel using it fails the lookup at `xpm2svg.py:91` or
  `xpm2svg.py:100`. The blockizer therefore requires every grid code to be in the table
  (`Blockizer.Resolves`).
  "Transparent" is the palette colour `#00FF00`.
- The colour is the seven characters starting at the `#` of the leftmost `c #` that is
  followed by six characters other than a newline. They need not be hexadecimal digits.
- A pixel line shorter than `width * cwidth` does not fail. Its codes come out short or
  empty. A pixel line past the end of the file reads as the empty string and gives empty
  codes.

## Model

| member | source | states |
|---|---|---|
| PyStr.Find | xpm2svg.py:12 | `find` gives the first index of the character, or -1 exactly when it is absent |
| PyStr.RFind | xpm2svg.py:12 | `rfind` gives the last index of the character, or -1 exactly when it is absent |
| PyStr.Slice | xpm2svg.py:12 | with `0 <= i <= j` a slice is the subsequence between the bounds clamped to the string; with `0 <= j <= i` it is empty; a non-empty slice is the piece that starts at the normalised start bound; it is never longer than the string |
| PyStr.Split | xpm2svg.py:30 | `split(' ')` gives at least one piece, and no piece contains the separator |
| PyStr.JoinSplit | xpm2svg.py:30 | joining the pieces of `split` with the separator gives the string back |
| PyStr.SplitJoin | xpm2svg.py:30 | splitting the join of separator-free pieces gives the same pieces |
| PyStr.ParseInt | xpm2svg.py:30 | a token `int` accepts is non-empty and holds no space |
| PyStr.ParseInts | xpm2svg.py:30 | the list comprehension succeeds exactly when every token parses, and then gives the value of each token in order |
| PyStr.DecimalValue | xpm2svg.py:30 | the decimal numeral of `n` is a run of digits whose value is `n` |
| PyStr.ParseIntDecimal | xpm2svg.py:30 | `int` reads back a decimal numeral, signed with `+` or `-` or unsigned |
| Util.StripQuotes | xpm2svg.py:11-12 | the result is never longer than the line and is always one contiguous piece `line[a..b]` of it; which piece, for every number of quotes, is proved in the four lemmas below |
| Util.StripQuotesBetween | xpm2svg.py:11-12 | with the first quote at `f` and the last at `l > f`, the result is exactly the text between them |
| Util.StripQuotesWrapped | xpm2svg.py:11-12 | `'"' + s + '"' + t` strips to `s` when `t` holds no quote, even when `s` contains quotes |
| Util.StripQuotesNoQuote | xpm2svg.py:12 | without a quote the result is `line[0:-1]`, the line minus its last character |
| Util.StripQuotesOneQuote | xpm2svg.py:12 | with exactly one quote the result is empty |
| Loader.HeaderLine | xpm2svg.py:25-28 | the header line is the first line at or after the cursor that is not skipped; every line before it starts with a character other than a quote |
| Loader.HeaderValues | xpm2svg.py:29-30 | the only failure is `BadInteger`, the `ValueError` of `int`; on success there is one value per piece of the stripped line split on single spaces |
| Loader.HeaderValuesRoundTrip | xpm2svg.py:29-30 | a header written as quoted decimal numbers separated by single spaces, followed by a quote-free suffix, reads back as exactly those numbers |
| Loader.ParseHeader | xpm2svg.py:24-30 | reading the header from the start of the file fails only with `EndOfInput` or `BadInteger`, and with `EndOfInput` exactly when the line where the skipping stops is the empty end-of-file string |
| Loader.XpmLoader.LoadValues | xpm2svg.py:24-30 | the `while True` loop stops at the header line and leaves the cursor after it; an empty line there is end of input, otherwise the result is that line's integers or `BadInteger` |
| Loader.FindColorFrom | xpm2svg.py:38 | the returned position is a match of `c #......` with no match before it, and `None` means there is no match from the start position on |
| Loader.FindColor | xpm2svg.py:38 | `None` exactly when no position matches; otherwise the seven characters from the `#` of the leftmost match |
| Loader.ColormapAfter | xpm2svg.py:33-39 | the only failure is `MalformedColorEntry` |
| Loader.ColormapFailure | xpm2svg.py:36-38 | reading the colour table fails exactly when some line has neither `c None` nor a colour |
| Loader.ColormapLookup | xpm2svg.py:33-39 | after a successful read, a code maps to the colour of the last colour line with that code (later lines overwrite earlier ones), and a code without a colour line keeps its earlier entry or stays absent |
| Loader.NoColorLineNoEntry | xpm2svg.py:36-37 | a code whose every line says `c None` has no colour line |
| Loader.CNoneCodeAbsent | xpm2svg.py:36-37 | a code whose every line says `c None` gets no table entry |
| Loader.ColormapStaysFailed | xpm2svg.py:33-38 | once a line fails, reading more lines cannot succeed |
| Loader.XpmLoader.LoadColormap | xpm2svg.py:32-39 | the loop reads exactly `numcol` lines and leaves the table equal to `ColormapAfter`; on failure it yields `MalformedColorEntry` and the table holds the entries of the lines before the malformed one |
| Loader.PixelRow | xpm2svg.py:44 | a row has `width` codes, or none when `width` is negative |
| Loader.CodeAt | xpm2svg.py:44 | code `j` has at most `cwidth` characters, and is the `j`-th `cwidth`-wide slice when the line reaches its end |
| Loader.PixelRowCode | xpm2svg.py:44 | every code has at most `cwidth` characters, and exactly `line[cwidth*j : cwidth*(j+1)]` of length `cwidth` when the line has at least `width*cwidth` characters |
| Loader.PixelRowTiles | xpm2svg.py:44 | the codes of a long enough line, concatenated, are its first `width*cwidth` characters |
| Loader.PixelRows | xpm2svg.py:42-45 | one row per line read, and each row has `width` codes |
| Loader.XpmLoader.LoadPixelmap | xpm2svg.py:41-45 | the loop appends exactly `height` rows, the `PixelRows` of the next `height` stripped lines, and leaves the cursor after them |
| Loader.XpmLoader.Empty | xpm2svg.py:17-18 | the loader starts with an empty colour table and no pixel rows |
| Loader.ParseBody | xpm2svg.py:20-22 | after a header `width height numcol cwidth`, the only failure is `MalformedColorEntry`; on success the image has the header's width and height and `height` pixel rows (none when `height` is negative) |
| Loader.ParseXpm | xpm2svg.py:16-22 | what the constructor computes, as a function of the lines; it has no `ensures` of its own, and its meaning is proved by `ParseXpmHeader`, `ParseXpmShape` and `XpmLoader.Load` |
| Loader.ParseXpmHeader | xpm2svg.py:20 | a loaded image takes its width and height from the first two header values, and the load fails with `HeaderArity` exactly when the header reads but does not hold four values |
| Loader.ParseXpmShape | xpm2svg.py:20-22 | a loaded image has `height` rows of `width` codes each |
| Loader.XpmLoader.LoadBody | xpm2svg.py:20-22 | storing the size and running `load_colormap` then `load_pixelmap` from the line after the header fails exactly with the error `ParseBody` gives, and on success leaves the fields equal to the image `ParseBody` gives |
| Loader.XpmLoader.Load | xpm2svg.py:16-22 | the constructor fails exactly with the error `ParseXpm` gives, and on success its fields are the image `ParseXpm` gives: a header that cannot be read keeps its error, a header without four values fails with `HeaderArity`, a malformed colour line fails with `MalformedColorEntry`, and otherwise the colour table and the pixel rows are read from the line after the header (the case lemmas `ParseXpmHeaderErr`, `ParseXpmArity`, `ParseXpmBody`, `ParseBodyErr` and `ParseBodyOk` are the proof steps) |
| Blockizer.Cuts | xpm2svg.py:101 | the condition under which an open run is closed: at a `k_blank` cell (the constant `Blockizer.Blank`, line 7), at a change of colour, or after four cells; it has no `ensures` of its own, and what the cut achieves is proved in `StepInv`, `RowRunsTiled` and `BlockizedMaximal` |
| Blockizer.Step | xpm2svg.py:100-110 | one pass of the inner loop's body on the scan state; it has no `ensures` of its own, and its meaning is proved by `StepInv` (one pass keeps the scan invariant) and `ScanToInv` (the invariant after every column) |
| Blockizer.ScanTo | xpm2svg.py:97-110 | between cells, `color` is unset exactly when `length == 0`, and `0 <= length <= 4` and `length <= column` |
| Blockizer.Close | xpm2svg.py:112-113 | closing the scan at the end of a row adds at most one run, and that run ends at the row's end and has the open run's length |
| Blockizer.RowRuns | xpm2svg.py:99-113 | a row's runs are those closed inside the loop, plus at most one more; what they are is proved in `RowRunsTiled` |
| Blockizer.CloseRun | xpm2svg.py:112-113 | closing the open run extends the tiling to every cell scanned so far |
| Blockizer.ExtendBlank | xpm2svg.py:105-110 | a blank cell after a tiling extends it, since no run covers it |
| Blockizer.StepCutBlank | xpm2svg.py:101-110 | a blank cell that closes the open run keeps the scan invariant |
| Blockizer.StepCutGrow | xpm2svg.py:101-107 | a cell of another colour, or a cell after four of the same colour, closes the run and opens a new one, keeping the scan invariant |
| Blockizer.StepBlank | xpm2svg.py:108-110 | a blank cell with no run open keeps the scan invariant |
| Blockizer.StepGrow | xpm2svg.py:105-107 | a non-blank cell that opens a run or extends the open one keeps the scan invariant |
| Blockizer.StepInv | xpm2svg.py:100-110 | one iteration of the inner loop keeps the scan invariant: the closed runs tile the cells before the open run, and the open run is `[column-length, column)` of one non-blank colour |
| Blockizer.ScanToInv | xpm2svg.py:99-110 | the scan invariant holds after every column |
| Blockizer.RowRunsTiled | xpm2svg.py:96-113 | a row's runs each have one to four cells of one non-blank colour and lie left to right without overlap; exactly the non-blank cells are covered; two touching runs of one colour mean the first is full |
| Blockizer.CloseTiled | xpm2svg.py:112-113 | closing the open run at the end of a row, when there is one, tiles the whole row |
| Blockizer.ScanRunsInside | xpm2svg.py:101-103 | the runs closed inside the loop lie within the row |
| Blockizer.FiveEqualCells | xpm2svg.py:101-113 | five equal non-blank cells give a run of four, then a run of one |
| Blockizer.RowColors | xpm2svg.py:100 | the colours of a row, one per column |
| Blockizer.PinAt | xpm2svg.py:88-91 | a pin is 0 or 1, and always 1 on the top row |
| Blockizer.MakeBlock | xpm2svg.py:86-92 | the block starts at `column - length`, keeps the row, length and colour, and has one pin per cell |
| Blockizer.MakeBlockPins | xpm2svg.py:88-91 | every pin is 0 or 1; on the top row every pin is 1, and on other rows a pin is 1 exactly when the cell above is `k_blank` |
| Blockizer.RunAbove | xpm2svg.py:91 | the cells above a run inside the grid are in the colour table |
| Blockizer.Emit | xpm2svg.py:102-113 | one block per run |
| Blockizer.EmitAt | xpm2svg.py:102-113 | block `i` is `make_block` applied to run `i` |
| Blockizer.EmittedEmit | xpm2svg.py:102-113 | blocks matched one to one to the runs are the row's blocks |
| Blockizer.RowsUpTo | xpm2svg.py:96 | one block list per row scanned |
| Blockizer.RowBlocksClose | xpm2svg.py:112-113 | a row's blocks are those closed in the loop, then the block for the run left open at the end of the row |
| Blockizer.BlockizeRow | xpm2svg.py:97-113 | the inner loop and the check after it yield exactly the row's blocks (the loop invariant is kept with `EmitSnoc` and `EmittedSnoc`) |
| Blockizer.Blockized | xpm2svg.py:95-113 | the blocks of every row, top row first: none for an image without rows, and exactly the row's blocks for an image of one row; the properties of the whole list are the `Blockized*` lemmas below |
| Blockizer.Blockize | xpm2svg.py:95-113 | the generator yields exactly `Blockized`: the blocks of every row, top row first (the loop invariant is kept with `RowsUpToSnoc`, and the `Flatten*` lemmas use `InRowsInit`) |
| Blockizer.RowBlocksAre | xpm2svg.py:102-113 | block `i` of a row spans run `i`, with its colour and the row's index |
| Blockizer.RowBlocksRows | xpm2svg.py:96-102 | every block of row `r` has row `r` |
| Blockizer.RunBlockGood | xpm2svg.py:86-92 | the block for a uniform run is in bounds, uniform and correctly pinned |
| Blockizer.RowBlockGood | xpm2svg.py:99-113 | each block of a row is in bounds, uniform and correctly pinned |
| Blockizer.RowBlocksGood | xpm2svg.py:99-113 | every block of a row is in bounds, uniform, correctly pinned and in that row |
| Blockizer.RowBlocksSorted | xpm2svg.py:99-113 | a row's blocks come left to right without overlapping |
| Blockizer.RowBlocksJoined | xpm2svg.py:101-107 | in a row, touching consecutive blocks of one colour mean the first is full |
| Blockizer.RowBlocksCover | xpm2svg.py:99-113 | a cell of a row lies in one of its blocks exactly when it is not blank |
| Blockizer.AppendGood | xpm2svg.py:96 | concatenating lists of good blocks gives good blocks |
| Blockizer.AppendRows | xpm2svg.py:96 | blocks of earlier rows followed by blocks of row `n` lie in rows up to `n` |
| Blockizer.AppendSorted | xpm2svg.py:96 | sorted earlier rows followed by a sorted row `n` stay sorted |
| Blockizer.AppendJoined | xpm2svg.py:96 | appending row `n` adds no touching same-colour pair across rows |
| Blockizer.AppendCover | xpm2svg.py:96 | coverage of the first `n` rows plus coverage of row `n` covers `n + 1` rows |
| Blockizer.FlattenRows | xpm2svg.py:96 | the blocks of `n` rows lie in rows `0 .. n-1` |
| Blockizer.FlattenGood | xpm2svg.py:96 | the blocks of good rows are good |
| Blockizer.FlattenSorted | xpm2svg.py:96 | rows emitted in increasing order, each sorted, give a sorted block list |
| Blockizer.FlattenJoined | xpm2svg.py:96 | rows in order, each cut only when full, give a list cut only when full |
| Blockizer.FlattenCover | xpm2svg.py:96 | rows that each cover their non-blank cells cover those of every row |
| Blockizer.AllInRows | xpm2svg.py:96 | row `r` of the image's rows holds only blocks of grid row `r` |
| Blockizer.AllGood | xpm2svg.py:95-113 | every yielded block is in bounds, uniform and correctly pinned |
| Blockizer.BlockizedBounds | xpm2svg.py:86-113 | every block has `1 <= length <= 4`, `0 <= left`, `left + length <= width`, `0 <= row < height` and `length` pins |
| Blockizer.BlockizedUniform | xpm2svg.py:100-107 | every cell a block spans has the block's colour, which is never `k_blank` (the constant `Blockizer.Blank`) |
| Blockizer.BlockizedPins | xpm2svg.py:88-91 | every pin is 0 or 1, and is 1 exactly when the block is on the top row or the cell above is `k_blank` |
| Blockizer.BlockizedOrder | xpm2svg.py:96-113 | rows come out in increasing order, and within a row blocks come left to right without overlapping |
| Blockizer.BlockizedCover | xpm2svg.py:96-113 | a grid cell lies in a block of its row exactly when it is not `k_blank` |
| Blockizer.BlockizedDisjoint | xpm2svg.py:96-113 | no cell lies in two blocks, so each non-blank cell lies in exactly one |
| Blockizer.BlockizedMaximal | xpm2svg.py:101-113 | runs are cut only at a blank cell, a change of colour, a full block or the end of the row: consecutive touching blocks of one colour in a row mean the first has four cells |

## Left out

- File access: `open` and `readline` (`xpm2svg.py:19, 26, 34, 43`) become a sequence of lines and a cursor, with the empty string past the end.
- `LegoSvgPutter` (`xpm2svg.py:48-83`) only draws rectangles through the `svgwrite` library and saves the file.
- `main` (`xpm2svg.py:116-127`) only handles command-line arguments, usage text and exit codes.
- The generator `blockize` is lazy. `Blockizer.Blockize` collects everything it yields, in order.
- Regular expressions are not modelled in general. Only the two fixed searches, the substring `c None` and `c (#......)`, are written as string functions.
- PyStr.ParseInt: accepts only an optional sign followed by ASCII digits. Python's `int` also accepts surrounding whitespace, underscores between digits and non-ASCII digits; such headers read as `BadInteger` here.
- Blockizer.Blockize: takes the loaded image as a value (`Loader.Image`, the four attributes `blockize` reads) instead of the loader object. It requires every grid code to be a key of the colour table (`Blockizer.Resolves`). Without that, the Python code raises `KeyError` at `xpm2svg.py:91` or `xpm2svg.py:100`, and that error path is not modelled.
- Blockizer.MakeBlock: requires `row >= 0` and the cells above the run to be in the grid. Python would read negative indices from the other end of a list, but `blockize` never makes such a call.
- Blockizer.BlockizeRow: one pass of the outer loop of `blockize`, made into a method of its own. The loop body is unchanged.
- Loader.XpmLoader.LoadBody: the last three assignments of `__init__` (the size, then `load_colormap` and `load_pixelmap`), made into a method of its own. The statements are unchanged.
- Header values are Python integers of unbounded size, and so are the model's `int`s. No wrap-around is involved.
