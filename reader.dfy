/**
 * `parse_las_from_reader`: reads a LAS file line by line. Outside a data
 * section every line is classified by `parse_line` and routed by the
 * current section's first letter; inside a data section (~A, or any title
 * containing "ASCII") every line up to the next title is a row of numbers.
 * Data lines are buffered and parsed in chunks of `CHUNK_SIZE`; when the
 * input ends, the numbers are reshaped row-major into a table whose columns
 * become the curves' samples, in curve order.
 *
 * The meaning is given line by line, without chunks, by `Step`, `Run`,
 * `Finish` and `ReadLas`; the method `ParseLasFromReader` keeps the chunk
 * buffer, works on a `LASFile` object in place, and is proved to produce
 * exactly what `ReadLas` describes, whatever the chunk boundaries.
 */
module Reader {
  import opened Wrappers
  import opened Text
  import opened LasItems
  import opened IndexMaps
  import opened Las
  import LineParser

  /** `CHUNK_SIZE`: how many data lines are buffered before they are parsed together. */
  const ChunkSize: nat := 10000

  /** `str::parse::<f64>().ok()`, given as a parameter: the number a word reads as, if any. */
  type NumParser = string -> Option<real>

  /**
   * A section whose lines are rows of numbers: its title starts with 'A' or
   * has "ASCII" at some index. A title too short to mention "ASCII" (such as
   * the initial "None") is a data section exactly when it starts with 'A'.
   */
  predicate IsDataSection(section: string): (b: bool)
    ensures b <==> StartsWith(section, 'A') || exists i: nat :: OccursAt(section, "ASCII", i)
    ensures |section| < |"ASCII"| ==> (b <==> StartsWith(section, 'A'))
  {
    ContainsAt(section, "ASCII");
    ShortNotContains(section, "ASCII");
    StartsWith(section, 'A') || Contains(section, "ASCII")
  }

  /**
   * The letter a header item is routed by: the title's first character,
   * upper-cased, or ' ' for an empty title. The four routing letters are
   * matched in either case.
   */
  function SectionKey(section: string): (k: char)
    ensures section == [] ==> k == ' '
    ensures k == 'V' <==> StartsWith(section, 'V') || StartsWith(section, 'v')
    ensures k == 'W' <==> StartsWith(section, 'W') || StartsWith(section, 'w')
    ensures k == 'P' <==> StartsWith(section, 'P') || StartsWith(section, 'p')
    ensures k == 'C' <==> StartsWith(section, 'C') || StartsWith(section, 'c')
  {
    ToAsciiUppercase(if section == [] then ' ' else section[0])
  }

  /**
   * One data line: the whitespace-separated words that parse as numbers, in
   * order. There are never more numbers than words, and a blank line has none.
   */
  function ParseRow(line: string, pn: NumParser): (row: seq<real>)
    ensures |row| <= |SplitWhitespace(line)|
    ensures AllWhitespace(line) ==> row == []
  {
    SplitBlank(line);
    FilterMap(SplitWhitespace(line), pn)
  }

  /** The numbers read so far and the column count fixed by the first non-empty row (0: none yet). */
  datatype Acc = Acc(values: seq<real>, ncols: nat)

  /** The column count is fixed exactly when some number has been read, and it never exceeds their count. */
  ghost predicate AccValid(acc: Acc) {
    (acc.ncols == 0 <==> acc.values == []) && acc.ncols <= |acc.values|
  }

  /**
   * What `process_chunk` does with one parsed row: its numbers are appended,
   * a column count once fixed stays, and AccValid is kept.
   */
  function FeedRow(acc: Acc, row: seq<real>): (a: Acc)
    ensures a.values == acc.values + row
    ensures acc.ncols != 0 ==> a.ncols == acc.ncols
    ensures AccValid(acc) ==> AccValid(a)
  {
    if row == [] then acc
    else Acc(acc.values + row, if acc.ncols == 0 then |row| else acc.ncols)
  }

  /** Rows fed in order. */
  function FeedRows(acc: Acc, rows: seq<seq<real>>): Acc
    decreases |rows|
  {
    if rows == [] then acc
    else FeedRow(FeedRows(acc, rows[..|rows| - 1]), rows[|rows| - 1])
  }

  /** `chunk.par_iter().map(..).collect()`: each buffered line parsed, order kept. */
  function ParseRows(lines: seq<string>, pn: NumParser): (rows: seq<seq<real>>)
    ensures |rows| == |lines|
    ensures forall k :: 0 <= k < |lines| ==> rows[k] == ParseRow(lines[k], pn)
  {
    seq(|lines|, k requires 0 <= k < |lines| => ParseRow(lines[k], pn))
  }

  /** One more buffered line is one more parsed row. */
  lemma ParseRowsSnoc(lines: seq<string>, line: string, pn: NumParser)
    ensures ParseRows(lines + [line], pn) == ParseRows(lines, pn) + [ParseRow(line, pn)]
  {
    assert ParseRows(lines + [line], pn)[|lines|] == ParseRow(line, pn);
  }

  /** The rows, concatenated. */
  function Flatten(rows: seq<seq<real>>): seq<real>
    decreases |rows|
  {
    if rows == [] then [] else rows[0] + Flatten(rows[1..])
  }

  /** The length of the first non-empty row, 0 when every row is empty. */
  function FirstWidth(rows: seq<seq<real>>): nat
    decreases |rows|
  {
    if rows == [] then 0 else if rows[0] != [] then |rows[0]| else FirstWidth(rows[1..])
  }

  lemma {:induction false} FlattenSnoc(rows: seq<seq<real>>, row: seq<real>)
    ensures Flatten(rows + [row]) == Flatten(rows) + row
    decreases |rows|
  {
    if rows == [] {
      assert [row][1..] == [];
    } else {
      assert (rows + [row])[1..] == rows[1..] + [row];
      FlattenSnoc(rows[1..], row);
    }
  }

  lemma {:induction false} FirstWidthSnoc(rows: seq<seq<real>>, row: seq<real>)
    ensures FirstWidth(rows + [row]) == if FirstWidth(rows) != 0 then FirstWidth(rows) else |row|
    decreases |rows|
  {
    if rows == [] {
      assert [row][1..] == [];
    } else {
      assert (rows + [row])[1..] == rows[1..] + [row];
      FirstWidthSnoc(rows[1..], row);
    }
  }

  /**
   * What feeding rows computes: every number of every row, in order, and
   * as column count the one already fixed or else the width of the first
   * row that has any number. Rows of other widths are not checked.
   */
  lemma {:induction false} FeedRowsMeaning(acc: Acc, rows: seq<seq<real>>)
    ensures FeedRows(acc, rows).values == acc.values + Flatten(rows)
    ensures FeedRows(acc, rows).ncols == if acc.ncols != 0 then acc.ncols else FirstWidth(rows)
    decreases |rows|
  {
    if rows != [] {
      var init := rows[..|rows| - 1];
      var row := rows[|rows| - 1];
      assert rows == init + [row];
      FeedRowsMeaning(acc, init);
      FlattenSnoc(init, row);
      FirstWidthSnoc(init, row);
    }
  }

  /**
   * Chunking does not matter: feeding a + b is feeding a, then b. The
   * buffer may be flushed at any line boundary.
   */
  lemma {:induction false} FeedRowsAppend(acc: Acc, a: seq<seq<real>>, b: seq<seq<real>>)
    ensures FeedRows(acc, a + b) == FeedRows(FeedRows(acc, a), b)
    decreases |b|
  {
    if b == [] {
      assert a + b == a;
    } else {
      var init := b[..|b| - 1];
      var ab := a + b;
      assert ab[..|ab| - 1] == a + init;
      assert ab[|ab| - 1] == b[|b| - 1];
      FeedRowsAppend(acc, a, init);
    }
  }

  /** Each curve of the map has no samples yet. */
  ghost predicate NoSamples(m: IndexMap<CurveItem>) {
    forall k :: m.Get(k).Some? ==> m.Get(k).value.data == []
  }

  /**
   * A header item in the current section: ~V, ~W and ~P items go to their
   * section, a ~C item becomes a curve definition without samples, and an
   * item of any other section is dropped. Exactly one section changes.
   */
  function RouteItem(doc: LasDoc, section: string, item: HeaderItem): (d: LasDoc)
    ensures SectionKey(section) == 'V' ==>
      d.version.Get(item.mnemonic) == Some(item) && d.(version := doc.version) == doc
      && forall k :: k != item.mnemonic ==> d.version.Get(k) == doc.version.Get(k)
    ensures SectionKey(section) == 'W' ==>
      d.well.Get(item.mnemonic) == Some(item) && d.(well := doc.well) == doc
      && forall k :: k != item.mnemonic ==> d.well.Get(k) == doc.well.Get(k)
    ensures SectionKey(section) == 'P' ==>
      d.params.Get(item.mnemonic) == Some(item) && d.(params := doc.params) == doc
      && forall k :: k != item.mnemonic ==> d.params.Get(k) == doc.params.Get(k)
    ensures SectionKey(section) == 'C' ==>
      d.curves.Get(item.mnemonic) == Some(CurveFromHeader(item)) && d.(curves := doc.curves) == doc
      && forall k :: k != item.mnemonic ==> d.curves.Get(k) == doc.curves.Get(k)
    // the order of the keys is that of `IndexMap::insert`: a new mnemonic is
    // appended, a present one keeps its position (for curves, its column)
    ensures SectionKey(section) == 'V' ==> d.version == doc.version.Insert(item.mnemonic, item)
    ensures SectionKey(section) == 'W' ==> d.well == doc.well.Insert(item.mnemonic, item)
    ensures SectionKey(section) == 'P' ==> d.params == doc.params.Insert(item.mnemonic, item)
    ensures SectionKey(section) == 'C' ==> d.curves == doc.curves.Insert(item.mnemonic, CurveFromHeader(item))
    ensures SectionKey(section) !in "VWPC" ==> d == doc
  {
    match SectionKey(section)
    case 'V' => doc.(version := doc.version.Insert(item.mnemonic, item))
    case 'W' => doc.(well := doc.well.Insert(item.mnemonic, item))
    case 'P' => doc.(params := doc.params.Insert(item.mnemonic, item))
    case 'C' => doc.(curves := doc.curves.Insert(item.mnemonic, CurveFromHeader(item)))
    case _ => doc
  }

  /**
   * Routing keeps the document well formed: one entry per mnemonic, each
   * under its own mnemonic, and no curve with samples before the data.
   */
  lemma {:induction false} RouteItemValid(doc: LasDoc, section: string, item: HeaderItem)
    requires DocValid(doc) && NoSamples(doc.curves)
    ensures DocValid(RouteItem(doc, section, item)) && NoSamples(RouteItem(doc, section, item).curves)
  {
    match SectionKey(section)
    case 'V' => InsertKeyedBy(doc.version, item, HeaderKey);
    case 'W' => InsertKeyedBy(doc.well, item, HeaderKey);
    case 'P' => InsertKeyedBy(doc.params, item, HeaderKey);
    case 'C' => InsertKeyedBy(doc.curves, CurveFromHeader(item), CurveKey);
    case _ =>
  }

  /**
   * One line outside a data section (the `match parse_line(&line)`): a
   * title opens a section, a header item is routed, a data line of a
   * section whose title starts with 'O' is appended to the other text with
   * a newline, and comments and blank lines change nothing.
   */
  function HeaderModeLine(section: string, doc: LasDoc, line: string): (r: (string, LasDoc))
    ensures StartsWith(Trim(line), '~') ==> r == (Trim(Trim(line)[1..]), doc)
    ensures !StartsWith(Trim(line), '~') ==> r.0 == section
    ensures LineParser.ParseLine(line).value.HeaderItem? ==>
      r.1 == RouteItem(doc, section, LineParser.ParseLine(line).value.item)
    ensures Trim(line) == [] || StartsWith(Trim(line), '#') ==> r == (section, doc)
    // only a data line of an 'O' section is kept, trimmed and followed by a newline
    ensures r.1.other != doc.other <==>
      StartsWith(section, 'O') && (StartsWith(Trim(line), '.') || StartsWith(Trim(line), ':'))
    ensures r.1.other != doc.other ==> r.1 == doc.(other := doc.other + Trim(line) + "\n")
    // a data line changes nothing but the other text, and that only in an 'O' section
    ensures StartsWith(Trim(line), '.') || StartsWith(Trim(line), ':') ==>
      r == (section, if StartsWith(section, 'O') then doc.(other := doc.other + Trim(line) + "\n") else doc)
  {
    var lt := LineParser.ParseLine(line).value;
    if lt.SectionTitle? then (lt.title, doc)
    else if lt.HeaderItem? then (section, RouteItem(doc, section, lt.item))
    else if lt.DataLine? then
      (section, if StartsWith(section, 'O') then doc.(other := doc.other + lt.content + "\n") else doc)
    else (section, doc)
  }

  /** The reader between two lines: the current section, the document, the numbers read. */
  datatype ReadState = ReadState(section: string, doc: LasDoc, acc: Acc)

  /** Before the first line: section "None", an empty document, no numbers. */
  function InitialState(): (st: ReadState)
    ensures !IsDataSection(st.section) && !StartsWith(st.section, 'O') && SectionKey(st.section) !in "VWPC"
    ensures DocValid(st.doc) && AccValid(st.acc) && st.acc.values == []
  {
    ReadState("None", EmptyDoc(), Acc([], 0))
  }

  /** One line of the loop of `parse_las_from_reader`, with the data rows fed at once. */
  function Step(st: ReadState, line: string, pn: NumParser): (r: ReadState)
    // only lines of a data section contribute numbers
    ensures !IsDataSection(st.section) ==> r.acc == st.acc
    // in a data section every line but a title is a row, whatever it looks like
    ensures IsDataSection(st.section) && !StartsWith(Trim(line), '~') ==>
      r.section == st.section && r.doc == st.doc && r.acc == FeedRow(st.acc, ParseRow(line, pn))
    // a title line, in either mode, opens its section and touches nothing else
    ensures StartsWith(Trim(line), '~') ==>
      r.section == Trim(Trim(line)[1..]) && r.doc == st.doc && r.acc == st.acc
    ensures !StartsWith(Trim(line), '~') ==> r.section == st.section
    // outside a data section a header item is routed, and comments and blank lines change nothing
    ensures !IsDataSection(st.section) && LineParser.ParseLine(line).value.HeaderItem? ==>
      r.doc == RouteItem(st.doc, st.section, LineParser.ParseLine(line).value.item)
    ensures !IsDataSection(st.section) && (Trim(line) == [] || StartsWith(Trim(line), '#')) ==> r == st
    // the other text grows, by the trimmed line and a newline, exactly on a
    // data line (trimmed, starting with '.' or ':') of an 'O' section
    ensures r.doc.other == st.doc.other
      || (StartsWith(st.section, 'O') && !IsDataSection(st.section) && r.doc.other == st.doc.other + Trim(line) + "\n")
    ensures r.doc.other != st.doc.other <==>
      StartsWith(st.section, 'O') && !IsDataSection(st.section)
      && (StartsWith(Trim(line), '.') || StartsWith(Trim(line), ':'))
    // outside a data section such a data line changes nothing else
    ensures !IsDataSection(st.section) && (StartsWith(Trim(line), '.') || StartsWith(Trim(line), ':')) ==>
      r == st.(doc := if StartsWith(st.section, 'O') then st.doc.(other := st.doc.other + Trim(line) + "\n") else st.doc)
  {
    if IsDataSection(st.section) then
      var t := Trim(line);
      if StartsWith(t, '~') then
        st.(section := LineParser.ParseSectionTitle(t).GetOr("Unknown"))
      else
        st.(acc := FeedRow(st.acc, ParseRow(line, pn)))
    else
      var (section, doc) := HeaderModeLine(st.section, st.doc, line);
      ReadState(section, doc, st.acc)
  }

  /** The state after the given lines, from the initial state; the numbers read so far are AccValid. */
  function Run(lines: seq<string>, pn: NumParser): (st: ReadState)
    ensures AccValid(st.acc)
    decreases |lines|
  {
    if lines == [] then InitialState()
    else Step(Run(lines[..|lines| - 1], pn), lines[|lines| - 1], pn)
  }

  /** One line keeps the document well formed and without samples. */
  lemma {:induction false} StepValid(st: ReadState, line: string, pn: NumParser)
    requires DocValid(st.doc) && NoSamples(st.doc.curves)
    ensures DocValid(Step(st, line, pn).doc) && NoSamples(Step(st, line, pn).doc.curves)
  {
    if !IsDataSection(st.section) {
      var lt := LineParser.ParseLine(line).value;
      if lt.HeaderItem? {
        RouteItemValid(st.doc, st.section, lt.item);
      }
    }
  }

  /**
   * Whatever the lines, the document read so far has one entry per
   * mnemonic in each section, and no curve has samples before the end.
   */
  lemma {:induction false} RunValid(lines: seq<string>, pn: NumParser)
    ensures DocValid(Run(lines, pn).doc) && NoSamples(Run(lines, pn).doc.curves)
    decreases |lines|
  {
    if lines != [] {
      RunValid(lines[..|lines| - 1], pn);
      StepValid(Run(lines[..|lines| - 1], pn), lines[|lines| - 1], pn);
    }
  }

  /** The state after the given lines, read from the state st. */
  function Steps(st: ReadState, lines: seq<string>, pn: NumParser): ReadState
    decreases |lines|
  {
    if lines == [] then st
    else Step(Steps(st, lines[..|lines| - 1], pn), lines[|lines| - 1], pn)
  }

  /** Reading a + b is reading b from the state a leaves. */
  lemma {:induction false} RunAppend(a: seq<string>, b: seq<string>, pn: NumParser)
    ensures Run(a + b, pn) == Steps(Run(a, pn), b, pn)
    decreases |b|
  {
    if b == [] {
      assert a + b == a;
    } else {
      var init := b[..|b| - 1];
      var last := b[|b| - 1];
      assert Run(a + init, pn) == Steps(Run(a, pn), init, pn) by {
        RunAppend(a, init, pn);
      }
      assert Run(a + b, pn) == Step(Run(a + init, pn), last, pn) by {
        assert a + b == (a + init) + [last];
        RunSnoc(a + init, last, pn);
      }
    }
  }

  /** One more line is one more step. */
  lemma {:induction false} RunSnoc(lines: seq<string>, line: string, pn: NumParser)
    ensures Run(lines + [line], pn) == Step(Run(lines, pn), line, pn)
  {
    assert (lines + [line])[..|lines|] == lines;
  }

  /**
   * From a state in a data section, the lines up to the next title leave
   * the section and the document as they are and feed their rows in order.
   */
  lemma {:induction false} DataSteps(st: ReadState, rows: seq<string>, pn: NumParser)
    requires IsDataSection(st.section)
    requires forall k :: 0 <= k < |rows| ==> !StartsWith(Trim(rows[k]), '~')
    ensures Steps(st, rows, pn) == st.(acc := FeedRows(st.acc, ParseRows(rows, pn)))
    decreases |rows|
  {
    if rows != [] {
      var init := rows[..|rows| - 1];
      var last := rows[|rows| - 1];
      var mid := Steps(st, init, pn);
      assert mid == st.(acc := FeedRows(st.acc, ParseRows(init, pn))) by {
        DataSteps(st, init, pn);
      }
      assert !StartsWith(Trim(last), '~');
      assert Steps(st, rows, pn) == mid.(acc := FeedRow(mid.acc, ParseRow(last, pn)));
      assert init + [last] == rows;
      FeedRowsSnoc(st.acc, init, last, pn);
    }
  }

  /**
   * Inside a data section every line up to the next title is a row: the
   * section and the document stay as they are, and the rows are fed in
   * line order.
   */
  lemma {:induction false} DataSectionRun(prefix: seq<string>, rows: seq<string>, pn: NumParser)
    requires IsDataSection(Run(prefix, pn).section)
    requires forall k :: 0 <= k < |rows| ==> !StartsWith(Trim(rows[k]), '~')
    ensures Run(prefix + rows, pn) == Run(prefix, pn).(acc := FeedRows(Run(prefix, pn).acc, ParseRows(rows, pn)))
  {
    RunAppend(prefix, rows, pn);
    DataSteps(Run(prefix, pn), rows, pn);
  }

  /** A line of a data section that is not a title adds its row to the state after the lines before it. */
  lemma {:induction false} DataLineRun(lines: seq<string>, line: string, pn: NumParser)
    requires IsDataSection(Run(lines, pn).section) && !StartsWith(Trim(line), '~')
    ensures Run(lines + [line], pn) == Run(lines, pn).(acc := FeedRow(Run(lines, pn).acc, ParseRow(line, pn)))
  {
    assert (lines + [line])[..|lines|] == lines;
  }

  lemma {:induction false} FeedRowsSnoc(acc: Acc, lines: seq<string>, line: string, pn: NumParser)
    ensures FeedRows(acc, ParseRows(lines + [line], pn)) == FeedRow(FeedRows(acc, ParseRows(lines, pn)), ParseRow(line, pn))
  {
    ParseRowsSnoc(lines, line, pn);
    assert (ParseRows(lines, pn) + [ParseRow(line, pn)])[..|lines|] == ParseRows(lines, pn);
  }

  /** The one error the reader reports besides I/O: numbers that do not fill the table. */
  datatype ReadError = ShapeError(len: nat, nrows: nat, ncols: nat)

  /** Consecutive runs of ncols values, nrows of them. */
  function Chunks(values: seq<real>, nrows: nat, ncols: nat): seq<seq<real>>
    requires nrows * ncols == |values|
    decreases nrows
  {
    if nrows == 0 then []
    else
      assert (nrows - 1) * ncols == |values| - ncols;
      [values[..ncols]] + Chunks(values[ncols..], nrows - 1, ncols)
  }

  lemma {:induction false} MulMono(a: nat, b: nat, n: nat)
    requires a <= b
    ensures a * n <= b * n
    decreases b - a
  {
    if a < b {
      MulMono(a, b - 1, n);
      assert b * n == (b - 1) * n + n;
    }
  }

  /** Cell (r, c) of an nrows by ncols table lies inside it, row-major. */
  lemma {:induction false} CellInside(r: nat, c: nat, nrows: nat, ncols: nat)
    requires r < nrows && c < ncols
    ensures r * ncols + c < nrows * ncols
  {
    MulMono(r + 1, nrows, ncols);
    assert (r + 1) * ncols == r * ncols + ncols;
  }

  lemma MulPred(r: nat, n: nat)
    requires r > 0
    ensures (r - 1) * n == r * n - n
  {
  }

  /** Row r of the chunks is values[r * ncols .. (r + 1) * ncols]. */
  lemma {:induction false} ChunkCell(values: seq<real>, nrows: nat, ncols: nat, r: nat, c: nat)
    requires nrows * ncols == |values|
    requires r < nrows && c < ncols
    ensures r < |Chunks(values, nrows, ncols)| && c < |Chunks(values, nrows, ncols)[r]|
    ensures r * ncols + c < |values| && Chunks(values, nrows, ncols)[r][c] == values[r * ncols + c]
    decreases r
  {
    CellInside(r, c, nrows, ncols);
    ChunkRowLength(values, nrows, ncols, r);
    MulPred(nrows, ncols);
    var rest := values[ncols..];
    var rows := Chunks(values, nrows, ncols);
    assert rows == [values[..ncols]] + Chunks(rest, nrows - 1, ncols);
    if r > 0 {
      ChunkCell(rest, nrows - 1, ncols, r - 1, c);
      MulPred(r, ncols);
      assert rows[r] == Chunks(rest, nrows - 1, ncols)[r - 1];
    }
  }

  lemma {:induction false} ChunkRowLength(values: seq<real>, nrows: nat, ncols: nat, r: nat)
    requires nrows * ncols == |values| && r < nrows
    ensures r < |Chunks(values, nrows, ncols)| && |Chunks(values, nrows, ncols)[r]| == ncols
    decreases r
  {
    MulPred(nrows, ncols);
    var rest := values[ncols..];
    assert Chunks(values, nrows, ncols) == [values[..ncols]] + Chunks(rest, nrows - 1, ncols);
    if r > 0 {
      ChunkRowLength(rest, nrows - 1, ncols, r - 1);
    }
  }

  lemma {:induction false} ChunksLength(values: seq<real>, nrows: nat, ncols: nat)
    requires nrows * ncols == |values|
    ensures |Chunks(values, nrows, ncols)| == nrows
    decreases nrows
  {
    if nrows > 0 {
      MulPred(nrows, ncols);
      ChunksLength(values[ncols..], nrows - 1, ncols);
    }
  }

  /**
   * `Array2::from_shape_vec((nrows, ncols), values)`: the row-major table
   * when there are exactly nrows * ncols values, an error otherwise.
   */
  function Reshape(values: seq<real>, nrows: nat, ncols: nat): (r: Result<seq<seq<real>>, ReadError>)
    ensures r.Success? <==> nrows * ncols == |values|
    ensures r.Success? ==> |r.value| == nrows && IsTable(r.value, ncols)
  {
    if nrows * ncols != |values| then Failure(ShapeError(|values|, nrows, ncols))
    else
      ChunksLength(values, nrows, ncols);
      assert IsTable(Chunks(values, nrows, ncols), ncols) by {
        forall r | 0 <= r < nrows ensures |Chunks(values, nrows, ncols)[r]| == ncols {
          ChunkRowLength(values, nrows, ncols, r);
        }
      }
      Success(Chunks(values, nrows, ncols))
  }

  /** Cell (i, j) of the reshaped table is value i * ncols + j. */
  lemma {:induction false} ReshapeCell(values: seq<real>, nrows: nat, ncols: nat, i: nat, j: nat)
    requires Reshape(values, nrows, ncols).Success? && i < nrows && j < ncols
    ensures i * ncols + j < |values| && Reshape(values, nrows, ncols).value[i][j] == values[i * ncols + j]
  {
    ChunkCell(values, nrows, ncols, i, j);
  }

  /** `arr.column(j).to_vec()`. */
  function Column(table: seq<seq<real>>, j: nat): seq<real>
    requires forall i :: 0 <= i < |table| ==> j < |table[i]|
  {
    seq(|table|, i requires 0 <= i < |table| => table[i][j])
  }

  /** Rows of ncols values each. */
  ghost predicate IsTable(table: seq<seq<real>>, ncols: nat) {
    forall i :: 0 <= i < |table| ==> |table[i]| == ncols
  }

  /** Curve number j, with column j of the table as its samples when the table has one. */
  function AssignedEntry(curves: IndexMap<CurveItem>, table: seq<seq<real>>, ncols: nat, j: nat): (string, CurveItem)
    requires IsTable(table, ncols) && j < |curves.entries|
  {
    if j < ncols then (curves.entries[j].0, curves.entries[j].1.(data := Column(table, j)))
    else curves.entries[j]
  }

  /** The enumeration over the curves after reading: curve j gets column j, for j < ncols. */
  function AssignColumns(curves: IndexMap<CurveItem>, table: seq<seq<real>>, ncols: nat): (r: IndexMap<CurveItem>)
    requires IsTable(table, ncols)
    ensures |r.entries| == |curves.entries|
    ensures forall j :: 0 <= j < |curves.entries| ==>
      r.entries[j].0 == curves.entries[j].0 && r.entries[j].1.Metadata() == curves.entries[j].1.Metadata()
    ensures forall j :: 0 <= j < |curves.entries| && ncols <= j ==> r.entries[j] == curves.entries[j]
    ensures forall j :: 0 <= j < |curves.entries| && j < ncols ==> r.entries[j].1.data == Column(table, j)
  {
    IndexMap(seq(|curves.entries|, j requires 0 <= j < |curves.entries| => AssignedEntry(curves, table, ncols, j)))
  }

  /**
   * After the last line: reshape the numbers and give each curve its column.
   * Only the curves' samples can change; their keys and order stay, a valid
   * document stays valid, and without numbers the document is returned as is.
   */
  function Finish(doc: LasDoc, acc: Acc): (r: Result<LasDoc, ReadError>)
    ensures r.Success? ==> r.value.(curves := doc.curves) == doc && r.value.curves.Keys() == doc.curves.Keys()
    ensures r.Success? && DocValid(doc) ==> DocValid(r.value)
    ensures acc.ncols == 0 || acc.values == [] ==> r == Success(doc)
  {
    var values := acc.values;
    var ncols := acc.ncols;
    if ncols > 0 && values != [] then
      match Reshape(values, |values| / ncols, ncols)
      case Failure(e) => Failure(e)
      case Success(table) =>
        AssignColumnsKeys(doc.curves, table, ncols);
        AssignColumnsValid(doc.curves, table, ncols);
        Success(doc.(curves := AssignColumns(doc.curves, table, ncols)))
    else Success(doc)
  }

  /**
   * `parse_las_from_reader` on the given lines. A document it returns has one
   * entry per mnemonic in each section, each under its own mnemonic; it
   * fails exactly when the numbers read do not fill whole rows.
   */
  function ReadLas(lines: seq<string>, pn: NumParser): (r: Result<LasDoc, ReadError>)
    ensures r.Success? ==> DocValid(r.value)
    ensures r.Failure? <==>
      Run(lines, pn).acc.values != [] && |Run(lines, pn).acc.values| % Run(lines, pn).acc.ncols != 0
  {
    RunValid(lines, pn);
    FinishFails(Run(lines, pn).doc, Run(lines, pn).acc);
    Finish(Run(lines, pn).doc, Run(lines, pn).acc)
  }

  /** A string shorter than the pattern does not contain it. */
  lemma {:induction false} ShortNotContains(s: string, pat: string)
    ensures |s| < |pat| ==> !Contains(s, pat)
    decreases |s|
  {
    if s != [] && |s| < |pat| {
      ShortNotContains(s[1..], pat);
    }
  }

  /**
   * Lines before the first section title change nothing: the reader starts
   * in section "None", which is no data section and routes no item, so a
   * preamble of items, comments or data lines is dropped.
   */
  lemma {:induction false} PreambleIgnored(lines: seq<string>, pn: NumParser)
    requires forall k :: 0 <= k < |lines| ==> !StartsWith(Trim(lines[k]), '~')
    ensures Run(lines, pn) == InitialState()
    decreases |lines|
  {
    if lines != [] {
      var init := lines[..|lines| - 1];
      var line := lines[|lines| - 1];
      PreambleIgnored(init, pn);
      ShortNotContains("None", "ASCII");
      assert !IsDataSection("None");
      assert SectionKey("None") == 'N';
      var lt := LineParser.ParseLine(line).value;
      assert !lt.SectionTitle?;
      assert HeaderModeLine("None", EmptyDoc(), line) == ("None", EmptyDoc());
    }
  }

  lemma DivisionExact(n: nat, c: nat)
    requires c > 0
    ensures (n / c) * c == n <==> n % c == 0
  {
  }

  /**
   * The read fails exactly when there are numbers, a column count, and the
   * numbers do not fill whole rows of that many columns.
   */
  lemma {:induction false} FinishFails(doc: LasDoc, acc: Acc)
    ensures Finish(doc, acc).Failure? <==>
      acc.ncols > 0 && acc.values != [] && |acc.values| % acc.ncols != 0
  {
    if acc.ncols > 0 {
      DivisionExact(|acc.values|, acc.ncols);
    }
  }

  /**
   * After a successful read only the curves' samples differ from the
   * document read line by line: curve j, in curve order, gets column j of
   * the row-major table, one sample per row, when there are numbers and
   * j is below the column count; every other curve keeps what it had.
   */
  lemma {:induction false} FinishColumns(doc: LasDoc, acc: Acc, j: nat)
    requires Finish(doc, acc).Success? && j < |doc.curves.entries|
    ensures Finish(doc, acc).value.(curves := doc.curves) == doc
    ensures Finish(doc, acc).value.curves.Keys() == doc.curves.Keys()
    ensures Finish(doc, acc).value.curves.entries[j].1.Metadata() == doc.curves.entries[j].1.Metadata()
    ensures j < acc.ncols && acc.values != [] ==>
      |Finish(doc, acc).value.curves.entries[j].1.data| == |acc.values| / acc.ncols
    ensures j < acc.ncols && acc.values != [] ==>
      forall r :: 0 <= r < |acc.values| / acc.ncols ==>
        r * acc.ncols + j < |acc.values|
        && Finish(doc, acc).value.curves.entries[j].1.data[r] == acc.values[r * acc.ncols + j]
    ensures !(j < acc.ncols && acc.values != []) ==>
      Finish(doc, acc).value.curves.entries[j].1.data == doc.curves.entries[j].1.data
  {
    var values := acc.values;
    var ncols := acc.ncols;
    if ncols > 0 && values != [] {
      var nrows := |values| / ncols;
      var table := Reshape(values, nrows, ncols).value;
      var m := AssignColumns(doc.curves, table, ncols);
      assert Finish(doc, acc).value == doc.(curves := m);
      assert m.Keys() == doc.curves.Keys() by {
        AssignColumnsKeys(doc.curves, table, ncols);
      }
      assert m.entries[j] == AssignedEntry(doc.curves, table, ncols, j);
      if j < ncols {
        TableColumn(values, nrows, ncols, j);
      }
    } else {
      assert Finish(doc, acc).value == doc;
    }
  }

  lemma AssignColumnsKeys(curves: IndexMap<CurveItem>, table: seq<seq<real>>, ncols: nat)
    requires IsTable(table, ncols)
    ensures AssignColumns(curves, table, ncols).Keys() == curves.Keys()
  {
    var m := AssignColumns(curves, table, ncols);
    assert forall j :: 0 <= j < |m.entries| ==> m.entries[j].0 == curves.entries[j].0;
  }

  /** Column j of the reshaped table: sample r is value r * ncols + j. */
  lemma {:induction false} TableColumn(values: seq<real>, nrows: nat, ncols: nat, j: nat)
    requires Reshape(values, nrows, ncols).Success? && j < ncols
    ensures |Column(Reshape(values, nrows, ncols).value, j)| == nrows
    ensures forall r :: 0 <= r < nrows ==>
      r * ncols + j < |values| && Column(Reshape(values, nrows, ncols).value, j)[r] == values[r * ncols + j]
  {
    forall r | 0 <= r < nrows
      ensures r * ncols + j < |values| && Column(Reshape(values, nrows, ncols).value, j)[r] == values[r * ncols + j]
    {
      ReshapeCell(values, nrows, ncols, r, j);
    }
  }

  /**
   * The curves of a successful read: curve j holds column j of the data
   * when the data has that many columns, and no samples otherwise.
   */
  lemma {:induction false} ReadLasCurve(lines: seq<string>, pn: NumParser, j: nat)
    requires ReadLas(lines, pn).Success? && j < |Run(lines, pn).doc.curves.entries|
    ensures ReadLas(lines, pn).value.curves.Keys() == Run(lines, pn).doc.curves.Keys()
    ensures !(j < Run(lines, pn).acc.ncols && Run(lines, pn).acc.values != []) ==>
      ReadLas(lines, pn).value.curves.entries[j].1.data == []
  {
    var st := Run(lines, pn);
    FinishColumns(st.doc, st.acc, j);
    RunValid(lines, pn);
    GetAt(st.doc.curves, j);
  }

  /**
   * The `process_chunk` closure: parses the buffered lines (in parallel in
   * the source; the rows come back in line order) and appends each
   * non-empty row's numbers, fixing the column count at the first one.
   */
  method ProcessChunk(chunk: seq<string>, values: seq<real>, ncols: nat, pn: NumParser)
    returns (values': seq<real>, ncols': nat)
    ensures Acc(values', ncols') == FeedRows(Acc(values, ncols), ParseRows(chunk, pn))
  {
    values', ncols' := values, ncols;
    if chunk == [] {
      return;
    }
    var parsedRows := ParseRows(chunk, pn);
    for k := 0 to |parsedRows|
      invariant Acc(values', ncols') == FeedRows(Acc(values, ncols), parsedRows[..k])
    {
      var row := parsedRows[k];
      if row != [] {
        if ncols' == 0 {
          ncols' := |row|;
        }
        values' := values' + row;
      }
      assert parsedRows[..k + 1][..k] == parsedRows[..k];
    }
    assert parsedRows[..|parsedRows|] == parsedRows;
  }

  /**
   * One line outside a data section, applied to the file in place: the
   * same classification and routing as `HeaderModeLine`.
   */
  method ApplyHeaderModeLine(las: LASFile, section: string, line: string) returns (section': string)
    requires las.Valid()
    modifies las, las.version, las.well, las.curves, las.params
    ensures las.version == old(las.version) && las.well == old(las.well)
    ensures las.curves == old(las.curves) && las.params == old(las.params)
    ensures las.Valid()
    ensures (section', las.Model()) == HeaderModeLine(section, old(las.Model()), line)
  {
    section' := section;
    var lt := LineParser.ParseLine(line).value;
    if lt.SectionTitle? {
      section' := lt.title;
    } else if lt.HeaderItem? {
      var item := lt.item;
      var s := SectionKey(section);
      if s == 'V' {
        las.version.Insert(item);
      } else if s == 'W' {
        las.well.Insert(item);
      } else if s == 'P' {
        las.params.Insert(item);
      } else if s == 'C' {
        var curve := NewCurveItem(item.mnemonic, item.unit, item.value, item.descr);
        las.curves.Insert(curve);
      }
    } else if lt.DataLine? {
      if StartsWith(section, 'O') {
        las.other := las.other + lt.content + "\n";
      }
    }
  }

  /**
   * The loop over the curves after reading: `curve.data = arr.column(i)`
   * for every curve whose position i is below the column count.
   */
  method AssignColumnsInPlace(curves: SectionCurves, table: seq<seq<real>>, ncols: nat)
    requires curves.Valid() && IsTable(table, ncols)
    modifies curves
    ensures curves.Valid()
    ensures curves.items == AssignColumns(old(curves.items), table, ncols)
  {
    ghost var before := curves.items;
    var n := |curves.items.entries|;
    for i := 0 to n
      invariant |curves.items.entries| == n
      invariant forall j :: 0 <= j < i ==> curves.items.entries[j] == AssignedEntry(before, table, ncols, j)
      invariant forall j :: i <= j < n ==> curves.items.entries[j] == before.entries[j]
    {
      if i < ncols {
        var curve := curves.items.entries[i].1;
        curves.items := curves.items.UpdateAt(i, curve.(data := Column(table, i)));
      }
    }
    assert curves.items == AssignColumns(before, table, ncols);
    AssignColumnsValid(before, table, ncols);
  }

  /** Giving curves their columns keeps every curve under its own mnemonic. */
  lemma {:induction false} AssignColumnsValid(curves: IndexMap<CurveItem>, table: seq<seq<real>>, ncols: nat)
    requires IsTable(table, ncols)
    ensures CurvesValid(curves) ==> CurvesValid(AssignColumns(curves, table, ncols))
  {
    if CurvesValid(curves) {
      var m := AssignColumns(curves, table, ncols);
      AssignColumnsKeys(curves, table, ncols);
      forall j | 0 <= j < |m.entries|
        ensures CurveKey(m.entries[j].1) == m.entries[j].0
      {
        assert m.entries[j] == AssignedEntry(curves, table, ncols, j);
      }
    }
  }

  /**
   * One pass of the loop of `parse_las_from_reader`. In a data section a
   * title flushes the buffer and opens its section, and any other line is
   * buffered, the buffer being flushed when it holds CHUNK_SIZE lines;
   * outside a data section the line is applied to the file. Counting the
   * buffered lines as fed, this is one `Step`.
   */
  method ReadLine(las: LASFile, section: string, values: seq<real>, ncols: nat, chunk: seq<string>,
                  line: string, pn: NumParser)
    returns (section': string, values': seq<real>, ncols': nat, chunk': seq<string>)
    requires las.Valid() && |chunk| < ChunkSize
    modifies las, las.version, las.well, las.curves, las.params
    ensures las.version == old(las.version) && las.well == old(las.well)
    ensures las.curves == old(las.curves) && las.params == old(las.params)
    ensures las.Valid()
    ensures |chunk'| < ChunkSize
    ensures ReadState(section', las.Model(), FeedRows(Acc(values', ncols'), ParseRows(chunk', pn)))
      == Step(ReadState(section, old(las.Model()), FeedRows(Acc(values, ncols), ParseRows(chunk, pn))), line, pn)
  {
    section', values', ncols', chunk' := section, values, ncols, chunk;
    if IsDataSection(section) {
      if StartsWith(Trim(line), '~') {
        values', ncols' := ProcessChunk(chunk', values', ncols', pn);
        chunk' := [];
        section' := LineParser.ParseSectionTitle(Trim(line)).GetOr("Unknown");
      } else {
        ParseRowsSnoc(chunk', line, pn);
        chunk' := chunk' + [line];
        if |chunk'| >= ChunkSize {
          values', ncols' := ProcessChunk(chunk', values', ncols', pn);
          chunk' := [];
        }
      }
    } else {
      section' := ApplyHeaderModeLine(las, section, line);
    }
  }

  /**
   * The end of `parse_las_from_reader`: with numbers and a column count,
   * reshape them (the one error) and give the curves their columns.
   */
  method AssignData(las: LASFile, values: seq<real>, ncols: nat) returns (r: Result<LASFile, ReadError>)
    requires las.Valid()
    modifies las.curves
    ensures r.Success? <==> Finish(old(las.Model()), Acc(values, ncols)).Success?
    ensures r.Success? ==> r.value == las && las.Valid() && las.Model() == Finish(old(las.Model()), Acc(values, ncols)).value
    ensures r.Failure? ==> r.error == Finish(old(las.Model()), Acc(values, ncols)).error
  {
    if ncols > 0 && values != [] {
      var nrows := |values| / ncols;
      var shaped := Reshape(values, nrows, ncols);
      if shaped.Failure? {
        return Failure(shaped.error);
      }
      AssignColumnsInPlace(las.curves, shaped.value, ncols);
    }
    return Success(las);
  }

  /**
   * `parse_las_from_reader`: the loop over the lines with the chunk buffer,
   * the final flush, the reshape and the column assignment. It yields the
   * file `ReadLas` describes, or its error: buffering changes nothing.
   */
  method ParseLasFromReader(lines: seq<string>, pn: NumParser) returns (r: Result<LASFile, ReadError>)
    ensures r.Success? <==> ReadLas(lines, pn).Success?
    ensures r.Success? ==> fresh(r.value) && r.value.Valid() && r.value.Model() == ReadLas(lines, pn).value
    ensures r.Failure? ==> r.error == ReadLas(lines, pn).error
  {
    var las := new LASFile();
    var section := "None";
    var values: seq<real> := [];
    var ncols: nat := 0;
    var chunk: seq<string> := [];
    for k := 0 to |lines|
      invariant fresh(las) && fresh(las.version) && fresh(las.well) && fresh(las.curves) && fresh(las.params)
      invariant las.Valid() && |chunk| < ChunkSize
      invariant ReadState(section, las.Model(), FeedRows(Acc(values, ncols), ParseRows(chunk, pn))) == Run(lines[..k], pn)
    {
      assert Run(lines[..k + 1], pn) == Step(Run(lines[..k], pn), lines[k], pn) by {
        assert lines[..k + 1][..k] == lines[..k];
      }
      section, values, ncols, chunk := ReadLine(las, section, values, ncols, chunk, lines[k], pn);
    }
    assert lines[..|lines|] == lines;
    ghost var st := Run(lines, pn);
    values, ncols := ProcessChunk(chunk, values, ncols, pn);
    assert Acc(values, ncols) == st.acc;
    r := AssignData(las, values, ncols);
  }
}
