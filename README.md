# LAS 2.0 reader — a Dafny model

This project models the reader of lasio-rs, which parses Log ASCII Standard
(LAS 2.0) well-log files. The model covers `src/reader.rs`, `src/lib.rs` and
`src/las_items.rs`, and proves properties of it.

A LAS file is a sequence of lines:

- `~` lines open sections (`~V`ersion, `~W`ell, `~C`urve, `~P`arameter,
  `~O`ther, `~A`SCII data);
- header lines of the form `MNEM.UNIT VALUE : DESCRIPTION`;
- `#` comment lines;
- rows of whitespace-separated numbers in the data section.

The reader does the following:

- It keeps the current section.
- It routes each header item to the version, well, parameter or curve map
  by the first letter of that section's title. These are insertion-ordered
  maps keyed by mnemonic.
- In a section whose title starts with `O` and is not a data section, it
  appends each data line to a text buffer, trimmed and followed by a
  newline. A data line is a trimmed line that starts with `.` or `:`. Free
  text in that section reads as a header item and is dropped. Comments and
  blank lines are dropped too.
- It buffers data lines in chunks of `CHUNK_SIZE` (10000) and parses each
  chunk into rows of numbers.
- At the end, it reshapes all numbers row-major into a table and gives
  curve `i` column `i`.

Files:

- `wrappers.dfy`: `Option` and `Result`.
- `chars.dfy`: the character classes of the reader.
  - Rust's `char::is_whitespace`, i.e. Unicode White_Space.
  - nom's `space0`: space and tab.
  - `is_mnemonic_char`, and the unit characters.
  - `Span`: the end of a maximal run of one class. This is what
    `take_while`, `take_while1` and `space0` compute.
- `text.dfy`: the `str` operations the reader uses: `trim`, `trim_start`,
  `trim_end`, `split_whitespace`, `starts_with`, `contains`,
  `to_ascii_uppercase`, and `filter_map`.
- `index_map.dfy`: `IndexMap<String, V>`.
  - `insert` appends a new key.
  - `insert` of a present key replaces its value in place.
- `las_items.dfy`: `HeaderItem` and `CurveItem` with their constructors.
- `las.dfy`: the classes `SectionItems`, `SectionCurves` and `LASFile`.
  Their `insert` updates the section object in place. `LasDoc` is the value
  a `LASFile` holds.
- `line_parser.dfy`: the line parsers `parse_mnemonic`, `parse_unit`,
  `parse_line_header`, `parse_section_title`, `parse_comment` and
  `parse_line`, as functions.
- `reader.dfy`: `parse_las_from_reader`.
  - Its meaning is given line by line, without chunks, by `Step`, `Run`,
    `Finish` and `ReadLas`.
  - The method `ParseLasFromReader` keeps the 10000-line chunk buffer and
    the closure `process_chunk` (`ProcessChunk`).
  - It updates a `LASFile` object in place.
  - It is proved to produce exactly the document, or the error, that
    `ReadLas` describes.

Where the code departs from the usual LAS 2.0 conventions, the model follows
the code:

- **Splitting value from description.** The split is at the **first** `:` of
  the line (`take_while(|c| c != ':')`, `src/reader.rs:42`), not the
  rightmost one. `TIME.  12:30:00 : Acquisition time` therefore gets the
  value `12` and the description `30:00 : Acquisition time`.
  `LineParser.HeaderValueHasNoColon` states this.
- **No wrap mode, no NULL substitution, no writer.** The code has none of
  them.
- **No errors for a missing section or a bad number.** Unparsable words are
  skipped (`filter_map(.. .ok())`). Lines before the first `~` line are
  ignored rather than rejected (`Reader.PreambleIgnored`). The one error is
  the reshape error, raised when the numbers do not fill whole rows
  (`Reader.FinishFails`).
- **Ragged rows.** A row shorter or longer than the first row is not
  reported. Its numbers shift the following cells.
- **Mnemonic and '.'.** The mnemonic is the run of mnemonic characters. It
  is not the text before the first `.`. A line that does not start with a
  mnemonic character is a data line.
- **The layout function.** `LineParser.HeaderLine` lays an item out as
  `MNEM.UNIT VALUE : DESCRIPTION`. It is the reference that
  `LineParser.ReadHeaderLine` reads back. It is not a writer: the source has
  no writer.

## Model

| member | source | states |
|---|---|---|
| Chars.IsWhitespace | src/reader.rs:22 | `char::is_whitespace` holds of line breaks and never of the characters that tell lines apart ('.', ':', '~', '#') |
| Chars.IsSpaceOrTab | src/reader.rs:35 | what `space0` skips is whitespace, so `trim` would remove it too |
| Chars.IsMnemonicChar | src/reader.rs:21-23 | a mnemonic character is exactly a unit character other than '.' |
| Chars.IsUnitChar | src/reader.rs:30 | a unit may contain '.', but never ':' nor a space or tab |
| Chars.Span | src/reader.rs:25-31 | a scan of one character class stops inside the line, at its end or at the first character outside the class |
| Chars.SpanAll | src/reader.rs:25-31 | every character the scan passed over belongs to the class |
| Chars.SpanUnique | src/reader.rs:25-31 | a run of the class that ends at the line's end or before a character outside the class is the one the scan finds |
| Text.TrimStart | src/reader.rs:67 | `trim_start` never lengthens and leaves no whitespace at the start |
| Text.TrimEnd | src/reader.rs:67 | `trim_end` never lengthens and leaves no whitespace at the end |
| Text.Trim | src/reader.rs:50 | `trim` never lengthens and leaves no whitespace at either end |
| Text.ToAsciiUppercase | src/reader.rs:155 | `to_ascii_uppercase` turns 'a'..'z' into 'A'..'Z' and leaves every other character alone |
| Text.TrimStartFacts | src/reader.rs:67 | `trim_start` removes a whitespace prefix, leaves a suffix, and stops at a non-whitespace character |
| Text.TrimEndFacts | src/reader.rs:67 | `trim_end` removes a whitespace suffix, leaves a prefix, and stops after a non-whitespace character |
| Text.TrimFacts | src/reader.rs:67 | `trim` never lengthens, leaves no whitespace at either end, and yields "" exactly for all-whitespace input |
| Text.TrimSlice | src/reader.rs:67 | `trim` yields a contiguous piece of its argument |
| Text.TrimStartUnique | src/reader.rs:67 | `trim_start` stops exactly at the first non-whitespace character |
| Text.TrimEndUnique | src/reader.rs:67 | `trim_end` stops exactly after the last non-whitespace character |
| Text.TrimFixed | src/reader.rs:67 | `trim` leaves a string without whitespace at either end unchanged |
| Text.TrimIdempotent | src/reader.rs:67 | trimming twice is trimming once |
| Text.TrimPadded | src/reader.rs:67 | whitespace in front of a string does not change its trimmed form |
| Text.TrimSurrounded | src/reader.rs:50 | whitespace on both sides of a trimmed field is exactly what `trim` removes |
| Text.SplitWhitespace | src/reader.rs:109 | every word of `split_whitespace` is non-empty and free of whitespace |
| Text.SplitPadded | src/reader.rs:109 | leading whitespace does not change the words |
| Text.SplitWordFirst | src/reader.rs:109 | a word followed by the end or by whitespace is split off as the first word |
| Text.SplitJoin | src/reader.rs:109 | `split_whitespace` recovers words joined by single spaces (round trip) |
| Text.SplitBlank | src/reader.rs:109 | a blank or all-whitespace line has no words |
| Text.Contains | src/reader.rs:129 | `contains` never finds a pattern longer than the string |
| Text.OccursContains | src/reader.rs:129 | a pattern that occurs at some index is found by `contains` |
| Text.ContainsOccurs | src/reader.rs:129 | what `contains` finds occurs at some index |
| Text.ContainsAt | src/reader.rs:129 | `contains` holds exactly when the pattern occurs at some index |
| Text.FilterMap | src/reader.rs:110 | `filter_map` keeps at most as many elements as it is given |
| Text.FilterMapAppend | src/reader.rs:110 | `filter_map` distributes over concatenation: it keeps order |
| Text.FilterMapOne | src/reader.rs:110 | an element survives exactly when the function accepts it, as the accepted value |
| IndexMaps.IndexOfKey | src/lib.rs:25 | the position found holds the key, and there is none exactly when the key is absent |
| IndexMaps.IndexOfDistinct | src/lib.rs:25 | in a map without repeated keys the key at position i is found at i |
| IndexMaps.IndexMap.Get | src/lib.rs:25 | a key yields a value exactly when it is present |
| IndexMaps.IndexMap.Insert | src/lib.rs:35-37 | afterwards the key yields the new value and every other key what it did before; a present key keeps its position and the key order is unchanged; a new key is appended; validity is kept |
| IndexMaps.IndexMap.UpdateAt | src/reader.rs:187-191 | a write through `iter_mut` replaces the value at one position; keys and the other entries are unchanged |
| IndexMaps.Empty | src/lib.rs:29-33 | `IndexMap::new()` has no keys and yields nothing for every key |
| IndexMaps.GetAt | src/lib.rs:25 | in a valid map the key at position i yields the value at position i |
| IndexMaps.InsertKeyedBy | src/lib.rs:35-37 | inserting a value under its own mnemonic keeps every entry stored under its own mnemonic |
| IndexMaps.InsertAllGet | src/lib.rs:35-37 | after a run of inserts each key yields its last inserted value (the later duplicate wins), or what it yielded before |
| IndexMaps.InsertAllKeepsPositions | src/lib.rs:35-37 | a run of inserts never moves a key: the old keys are a prefix of the new keys, and the map stays valid |
| IndexMaps.InsertAllKeys | src/lib.rs:35-37 | the keys after a run of inserts are the old keys plus the inserted keys, and no others |
| LasItems.NewHeaderItem | src/las_items.rs:12-19 | `HeaderItem::new` stores the four strings verbatim |
| LasItems.NewCurveItem | src/las_items.rs:34-42 | `CurveItem::new` stores the four strings verbatim and starts with no data |
| LasItems.CurveFromHeader | src/reader.rs:160-162 | a ~C header item becomes a curve whose metadata is exactly that item, with no data |
| LasItems.HeaderItemEquality | src/las_items.rs:3-9 | derived equality of header items is equality of all four fields |
| LasItems.CurveItemEquality | src/las_items.rs:22-31 | derived equality of curve items is equality of metadata and data |
| LasItems.CurveFromHeaderInjective | src/reader.rs:161 | two header items give the same curve exactly when they are equal |
| Las.EmptyDoc | src/lib.rs:13-20 | the default document is valid, has four empty sections and no other text |
| Las.SectionItems.constructor | src/lib.rs:29-33 | `SectionItems::new` is an empty, valid section |
| Las.SectionItems.Insert | src/lib.rs:35-37 | the item is stored under its mnemonic; a new mnemonic is appended and a present one keeps its position with the later item replacing the earlier; nothing else changes and validity is kept |
| Las.SectionCurves.constructor | src/lib.rs:47-51 | `SectionCurves::new` is an empty, valid section |
| Las.SectionCurves.Insert | src/lib.rs:53-55 | the same ordered-map update for curves, keyed by the curve's mnemonic |
| Las.LASFile.constructor | src/lib.rs:59-63 | `LASFile::new()`/`default()` holds the empty document, with four fresh, distinct section objects |
| LineParser.ParseMnemonic | src/reader.rs:21-27 | fails exactly when the line does not start with a mnemonic character; otherwise the mnemonic is the maximal non-empty run of mnemonic characters and the rest is what follows it |
| LineParser.ParseUnit | src/reader.rs:29-31 | the unit is the maximal (possibly empty) run of characters that are neither whitespace nor ':', and the rest is what follows it |
| LineParser.HeaderStops | src/reader.rs:33-42 | the steps of `parse_line_header` stop in order inside the line, and a unit is read only after a '.' |
| LineParser.HeaderItemAt | src/reader.rs:44-50 | the item built from a header line has a value and a description with no whitespace at either end |
| LineParser.ParseLineHeader | src/reader.rs:33-51 | `parse_line_header` fails exactly when the line does not start with a mnemonic character |
| LineParser.ParseSectionTitle | src/reader.rs:54-58 | succeeds exactly on a line that starts with '~' |
| LineParser.ParseComment | src/reader.rs:60-64 | recognises exactly the lines that start with '#' |
| LineParser.ParseLine | src/reader.rs:66-88 | never fails; the trimmed line is empty, a comment, a title (the rest trimmed), a header item (what `parse_line_header` reads), or a data line exactly when it starts with '.' or ':' |
| LineParser.SpacesTrimmed | src/reader.rs:40-50 | the spaces `space0` skips before the value do not change the trimmed value |
| LineParser.HeaderParts | src/reader.rs:34-38 | `parse_mnemonic` and `parse_unit` read the runs that end at the positions the header parser uses |
| LineParser.NoColonBefore | src/reader.rs:34-42 | the mnemonic, spaces, '.', unit and spaces before the value contain no ':' |
| LineParser.HeaderFields | src/reader.rs:33-51 | a header line's fields by index: the mnemonic run, the unit after a '.', the value up to the FIRST ':' trimmed, and everything after that ':' trimmed as the description |
| LineParser.TrimAddsNothing | src/reader.rs:50 | trimming adds no character |
| LineParser.HeaderValueHasNoColon | src/reader.rs:42-50 | the value of a parsed header line never contains ':', because it ends at the first one |
| LineParser.LaidOutFields | src/reader.rs:33-51 | on a line whose mnemonic ends at a '.', the parsed fields are the pieces between the '.', the end of the unit and the first ':' |
| LineParser.ReadLaidOut | src/reader.rs:33-51 | a line laid out as an item's fields with their separators reads back as that item |
| LineParser.ReadHeaderLine | src/reader.rs:33-51 | `MNEM.UNIT VALUE : DESCRIPTION` of any item that a line can carry parses back to the item (round trip) |
| Reader.IsDataSection | src/reader.rs:129 | a title opens a data section exactly when it starts with 'A' or "ASCII" occurs in it at some index; a title too short to contain "ASCII", such as the initial "None", does so exactly when it starts with 'A' |
| Reader.SectionKey | src/reader.rs:155 | the routing letter is ' ' for an empty title, and is 'V', 'W', 'P' or 'C' exactly when the title starts with that letter in either case |
| Reader.ParseRow | src/reader.rs:108-111 | a data line gives no more numbers than it has words, and a blank line gives none |
| Reader.FeedRow | src/reader.rs:116-121 | a row's numbers are appended, a column count once fixed stays, and the column count stays fixed exactly when some number has been read, never above their count |
| Reader.ParseRows | src/reader.rs:107-113 | the parallel map yields one row per buffered line, in line order |
| Reader.ParseRowsSnoc | src/reader.rs:107-113 | one more buffered line is one more parsed row at the end |
| Reader.FeedRowsMeaning | src/reader.rs:115-122 | feeding rows appends every number of every row in order, and the column count is the one already fixed or else the width of the first non-empty row |
| Reader.FeedRowsAppend | src/reader.rs:143-146 | feeding a + b is feeding a, then b: where the chunk buffer is flushed does not matter |
| Reader.RouteItem | src/reader.rs:154-167 | a header item in a ~V, ~W or ~P section (first letter, any case) is stored in that section under its mnemonic, and in ~C as a curve without data; other keys and sections are unchanged, and in any other section the document is unchanged; the section is that of `IndexMap::insert`, so a new mnemonic is appended and a present one keeps its position (for a curve, its column) |
| Reader.RouteItemValid | src/reader.rs:154-167 | routing keeps one entry per mnemonic in each section and no curve with data |
| Reader.InitialState | src/reader.rs:95-98 | reading starts in section "None", which is not a data section, does not start with 'O' and routes no item; the empty document is valid and there are no numbers |
| Reader.Step | src/reader.rs:128-176 | in a data section every line but a title is a row and changes nothing else; a title opens its section and changes nothing else; outside a data section a header item is routed by `RouteItem`, and a comment or blank line changes nothing; the other text grows, by the trimmed line and a newline, exactly on a data line (trimmed, starting with '.' or ':') of an 'O' section; outside a data section a data line changes nothing else, and in a section not starting with 'O' nothing at all |
| Reader.HeaderModeLine | src/reader.rs:150-176 | a title opens its section and changes nothing else; a header item is routed by `RouteItem`; a comment or blank line changes nothing; the other text changes exactly on a data line of an 'O' section, by the trimmed line and a newline; a data line changes nothing else, and outside an 'O' section nothing at all |
| Reader.StepValid | src/reader.rs:150-176 | one line keeps the document valid and without samples |
| Reader.Run | src/reader.rs:125-177 | after any lines the column count is fixed exactly when some number has been read, and never exceeds their count |
| Reader.RunSnoc | src/reader.rs:125-177 | one more line is one more step of the loop |
| Reader.RunAppend | src/reader.rs:125-177 | reading a + b is reading b from the state that a leaves |
| Reader.RunValid | src/reader.rs:125-177 | after any lines the document is valid and no curve has samples yet |
| Reader.DataSteps | src/reader.rs:129-148 | from a state in a data section, lines up to the next title keep the section and the document and feed their rows in order |
| Reader.DataSectionRun | src/reader.rs:129-148 | inside a data section the lines up to the next title only feed their rows, in order |
| Reader.DataLineRun | src/reader.rs:141 | a non-title line of a data section adds its row to the state |
| Reader.ChunkCell | src/reader.rs:185 | cell (r, c) of the row-major reshape is value r * ncols + c |
| Reader.ChunkRowLength | src/reader.rs:185 | every row of the reshape has ncols cells |
| Reader.ChunksLength | src/reader.rs:185 | the reshape has nrows rows |
| Reader.Reshape | src/reader.rs:185 | `from_shape_vec` succeeds exactly when nrows * ncols is the number of values, and then yields nrows rows of ncols cells |
| Reader.ReshapeCell | src/reader.rs:185 | cell (i, j) of a successful reshape is value i * ncols + j |
| Reader.PreambleIgnored | src/reader.rs:96-176 | lines before the first section title change nothing |
| Reader.AssignColumns | src/reader.rs:187-191 | the enumeration keeps every curve's key, position and metadata; curve j gets column j when j is below the column count, and the others are left as they were |
| Reader.Finish | src/reader.rs:179-194 | only the curves' samples can change, their keys and order stay, a valid document stays valid, and without numbers the document comes back unchanged |
| Reader.ReadLas | src/reader.rs:94-195 | a document read has one entry per mnemonic in each section, each under its own mnemonic, and the read fails exactly when the numbers do not fill whole rows |
| Reader.FinishFails | src/reader.rs:183-185 | the read fails exactly when there are numbers and a column count that does not divide their number |
| Reader.FinishColumns | src/reader.rs:183-192 | after a successful read only the curves' data differ; curve j, for j below the column count, holds column j (sample r is value r * ncols + j, one per row); every other curve keeps its data |
| Reader.AssignColumnsKeys | src/reader.rs:187-191 | assigning the columns keeps the curves' keys and their order |
| Reader.TableColumn | src/reader.rs:189 | column j of the reshaped table has one sample per row, sample r being value r * ncols + j |
| Reader.ReadLasCurve | src/reader.rs:183-192 | a curve beyond the column count, or of a file without numbers, has no samples after reading |
| Reader.ProcessChunk | src/reader.rs:104-123 | `process_chunk` feeds the parsed rows of the chunk in order, fixing the column count at the first non-empty row |
| Reader.ApplyHeaderModeLine | src/reader.rs:150-176 | a line outside a data section, applied to the file in place, gives the section and document of the line-by-line meaning, with the same section objects |
| Reader.AssignColumnsInPlace | src/reader.rs:187-191 | the in-place loop over the curves gives curve i column i for i below the column count and keeps the section valid |
| Reader.AssignColumnsValid | src/reader.rs:187-191 | assigning columns keeps every curve under its own mnemonic |
| Reader.ReadLine | src/reader.rs:128-176 | one pass of the loop, with the chunk buffer counted as fed, is one line-by-line step, and the buffer stays below CHUNK_SIZE lines |
| Reader.AssignData | src/reader.rs:183-194 | the end of the read reshapes and assigns the columns in place, or returns the reshape error, exactly as `Finish` describes |
| Reader.ParseLasFromReader | src/reader.rs:94-195 | the chunked, in-place reader succeeds exactly when the line-by-line meaning does, with a fresh valid file holding that document, and otherwise fails with the same error |

## Left out

- Reading the input. `BufRead::lines` and its I/O errors (`line_result?`) are
  not modelled: the input is the sequence of lines it would yield.
- Number parsing. `str::parse::<f64>().ok()` is a parameter `NumParser` from
  words to optional reals. IEEE-754 rounding, NaN and infinities are
  therefore not modelled.
- Parallelism. rayon's `par_iter().map().collect()` is modelled as the
  order-preserving sequential map it is equivalent to.
- `ndarray::Array2` is a sequence of rows. Its error is
  `ShapeError(len, nrows, ncols)`.
- `Box<dyn Error>` is modelled only as that error.
- Machine integers. `usize` counters and lengths are unbounded integers.
  Overflow of `usize` is not modelled, as no file could reach it.
- The serde derives, the Python bindings (`src/pybindings.rs`), the JSON
  command-line tool (`src/bin/lasio_json.rs`) and the Python wrapper are not
  part of this model.
- Text.Trim: its `ensures` gives only the length bound and the absence of
  whitespace at either end. That the result is the argument with exactly its
  outer whitespace removed is stated by the lemmas `Text.TrimFacts`,
  `Text.TrimSlice`, `Text.TrimStartUnique` and `Text.TrimEndUnique`. This
  keeps every use of `trim` cheap to verify.
- Text.TrimStart: likewise; that exactly the leading whitespace is removed is
  `Text.TrimStartFacts`.
- Text.TrimEnd: likewise; that exactly the trailing whitespace is removed is
  `Text.TrimEndFacts`.
- Text.SplitWhitespace: its `ensures` only says that the words are non-empty
  and free of whitespace. That the words are all of the input's
  non-whitespace runs is stated by `Text.SplitJoin`, `Text.SplitWordFirst`
  and `Text.SplitPadded`, not as a single characterisation.
- Strings are sequences of Unicode scalar values. UTF-8 byte offsets are not
  modelled, since every operation the reader uses works on characters.
