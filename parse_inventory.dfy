/**
 * `write_inventory`: the inventory map laid out as a worksheet grid (a
 * header row, one row per entry, a TOTAL row with a SUM formula) and saved
 * next to the inventory as `inventory.xlsx`. The spreadsheet library is
 * reduced to a grid of cells and the list of sheets a saved workbook holds.
 */
module ParseInventory {
  import opened Wrappers
  import opened Bytes
  import opened Paths

  /** A cell position: (row, column), both counted from 0 as the library does. */
  type Cell = (nat, nat)

  datatype CellValue = Text(text: seq<byte>) | Number(number: nat) | Formula(formula: seq<byte>)

  type Grid = map<Cell, CellValue>

  datatype XlsxError = RowColumnLimit | SaveFailed

  /** The worksheet's bounds: 1,048,576 rows and 16,384 columns. */
  const RowMax: nat := 0x10_0000
  const ColMax: nat := 0x4000

  /** `as u32` keeps the count modulo 2^32. */
  const U32Modulus: nat := 0x1_0000_0000

  /** A worksheet: the cells written so far. */
  class Worksheet {
    var cells: Grid

    constructor()
      ensures cells == map[]
    {
      cells := map[];
    }

    /** `Worksheet::write`: fails outside the sheet's bounds and then writes nothing. */
    method Write(row: nat, col: nat, v: CellValue) returns (r: Result<(), XlsxError>)
      modifies this
      ensures row < RowMax && col < ColMax ==> r.Ok? && cells == old(cells)[(row, col) := v]
      ensures !(row < RowMax && col < ColMax) ==> r == Err(RowColumnLimit) && cells == old(cells)
    {
      if row < RowMax && col < ColMax {
        cells := cells[(row, col) := v];
        r := Ok(());
      } else {
        r := Err(RowColumnLimit);
      }
    }
  }

  /** What `Workbook::save` leaves on disk: the file's path and its sheets' grids. */
  datatype SavedFile = SavedFile(path: Name, sheets: seq<Grid>)

  /** A workbook: the grids of the sheets pushed into it. */
  class Workbook {
    var sheets: seq<Grid>

    constructor()
      ensures sheets == []
    {
      sheets := [];
    }

    /** `Workbook::push_worksheet`: the sheet as it is at the time of the push. */
    method PushWorksheet(ws: Worksheet)
      modifies this
      ensures sheets == old(sheets) + [ws.cells]
    {
      sheets := sheets + [ws.cells];
    }

    /**
     * `Workbook::save`: a workbook without sheets is saved with one blank
     * default sheet. Whether the file system accepts the file is the
     * parameter `written`.
     */
    method Save(path: Name, written: bool) returns (r: Result<SavedFile, XlsxError>)
      ensures written ==> r == Ok(SavedFile(path, if sheets == [] then [map[]] else sheets))
      ensures !written ==> r == Err(SaveFailed)
    {
      if !written {
        return Err(SaveFailed);
      }
      r := Ok(SavedFile(path, if sheets == [] then [map[]] else sheets));
    }
  }

  // ---------------------------------------------------------------------
  // The grid, as functions of the entries in the map's iteration order
  // ---------------------------------------------------------------------

  /** One `(path, line_count)` item of the inventory. */
  type Entry = (Path, nat)

  /**
   * The items of a `HashMap` in the order its iteration visits them: every
   * key once, with its value. The order itself is unspecified, so it is a
   * parameter.
   */
  ghost predicate Enumerates(entries: seq<Entry>, inventory: map<Path, nat>) {
    && (forall i, j :: 0 <= i < j < |entries| ==> entries[i].0 != entries[j].0)
    && (forall i :: 0 <= i < |entries| ==> entries[i].0 in inventory && inventory[entries[i].0] == entries[i].1)
    && (forall p :: p in inventory ==> exists i :: 0 <= i < |entries| && entries[i].0 == p)
  }

  /** A key with a second component and a file name, hence also a parent. */
  predicate Splittable(p: Path) {
    |p| >= 2 && p[|p| - 1].Normal?
  }

  /**
   * A key the layout can print: it splits, and its file name, parent and
   * second component are valid UTF-8. For any other key the source's
   * `unwrap` calls panic.
   */
  predicate Printable(p: Path) {
    && Splittable(p)
    && ValidUtf8(FileName(p).value)
    && ValidUtf8(Render(Parent(p).value))
    && ValidUtf8(ComponentBytes(p[1]))
  }

  predicate AllSplittable(entries: seq<Entry>) {
    forall i :: 0 <= i < |entries| ==> Splittable(entries[i].0)
  }

  /** The header row's four titles. */
  function HeaderTitle(col: nat): seq<byte>
    requires col < 4
  {
    if col == 0 then Ascii("directory")
    else if col == 1 then Ascii("sub-directory")
    else if col == 2 then Ascii("file")
    else Ascii("line_count")
  }

  /** What one data row shows, column by column. */
  datatype ReportRow = ReportRow(directory: Name, subDirectory: Name, file: Name, lineCount: nat)

  /**
   * The data row of the entry `(p, count)`: the parent, the second
   * component, the file name, and the count cast to `u32`.
   */
  function ReportRowOf(p: Path, count: nat): ReportRow
    requires Splittable(p)
  {
    ReportRow(Render(Parent(p).value), ComponentBytes(p[1]), FileName(p).value, count % U32Modulus)
  }

  /** The data rows of the entries, in the same order. */
  function ReportRows(entries: seq<Entry>): (r: seq<ReportRow>)
    requires AllSplittable(entries)
    ensures |r| == |entries| && forall i :: 0 <= i < |entries| ==> r[i] == ReportRowOf(entries[i].0, entries[i].1)
  {
    seq(|entries|, i requires 0 <= i < |entries| && AllSplittable(entries) => ReportRowOf(entries[i].0, entries[i].1))
  }

  /** The cell in column `col` of a data row. */
  function RowCell(row: ReportRow, col: nat): CellValue
    requires col < 4
  {
    if col == 0 then Text(row.directory)
    else if col == 1 then Text(row.subDirectory)
    else if col == 2 then Text(row.file)
    else Number(row.lineCount)
  }

  /** Row 0: the four titles, written left to right. */
  function HeaderRow(): Grid {
    map[][(0, 0) := Text(HeaderTitle(0))][(0, 1) := Text(HeaderTitle(1))]
         [(0, 2) := Text(HeaderTitle(2))][(0, 3) := Text(HeaderTitle(3))]
  }

  /** The data row `d` written onto `g` as row `row`, left to right. */
  function AddRow(g: Grid, row: nat, d: ReportRow): Grid {
    g[(row, 0) := RowCell(d, 0)][(row, 1) := RowCell(d, 1)][(row, 2) := RowCell(d, 2)][(row, 3) := RowCell(d, 3)]
  }

  /** The header row and the data rows `done`, the i-th in row i + 1. */
  function Rows(done: seq<ReportRow>): Grid
    decreases |done|
  {
    if done == [] then HeaderRow() else AddRow(Rows(done[..|done| - 1]), |done|, done[|done| - 1])
  }

  /** One more data row of a prefix adds that row to the grid of the prefix. */
  lemma {:induction false} RowsPrefixStep(report: seq<ReportRow>, i: nat)
    requires i < |report|
    ensures Rows(report[..i + 1]) == AddRow(Rows(report[..i]), i + 1, report[i])
  {
    assert report[..i + 1][..i] == report[..i];
  }

  /** The whole sheet: the rows, then TOTAL and the formula in the row after the last one. */
  function Sheet(report: seq<ReportRow>, formula: seq<byte>): Grid {
    Rows(report)[(|report| + 1, 2) := Text(Ascii("TOTAL"))][(|report| + 1, 3) := Formula(formula)]
  }

  // ---------------------------------------------------------------------
  // The SUM formula
  // ---------------------------------------------------------------------

  function Digit(d: nat): byte
    requires d < 10
  {
    (0x30 + d) as byte
  }

  predicate IsDigit(b: byte) {
    0x30 <= b <= 0x39
  }

  /** `format!("{}", n)` of an unsigned integer: its decimal digits, without leading zeros. */
  function Decimal(n: nat): (r: seq<byte>)
    ensures r != [] && (forall i :: 0 <= i < |r| ==> IsDigit(r[i]))
    ensures |r| > 1 ==> r[0] != Digit(0)
    decreases n
  {
    if n < 10 then [Digit(n)] else Decimal(n / 10) + [Digit(n % 10)]
  }

  /** The number a string of decimal digits spells. */
  function DecimalValue(s: seq<byte>): nat
    requires forall i :: 0 <= i < |s| ==> IsDigit(s[i])
    decreases |s|
  {
    if s == [] then 0 else DecimalValue(s[..|s| - 1]) * 10 + DigitValue(s[|s| - 1])
  }

  function DigitValue(b: byte): nat
    requires IsDigit(b)
  {
    (b - 0x30) as nat
  }

  lemma {:induction false} DecimalRoundTrip(n: nat)
    ensures DecimalValue(Decimal(n)) == n
    decreases n
  {
    if n >= 10 {
      var s := Decimal(n);
      assert s[..|s| - 1] == Decimal(n / 10);
      DecimalRoundTrip(n / 10);
    }
  }

  const OpenParen: byte := 0x28
  const CloseParen: byte := 0x29

  /** The bytes in front of the row number, `SUM(D1:D`. */
  function SumPrefix(): (r: seq<byte>)
    ensures |r| == 8 && r[|r| - 1] as int == 'D' as int
  {
    Ascii("SUM") + [OpenParen] + Ascii("D1:D")
  }

  /** The formula as the source builds it: the range's last row, and no closing parenthesis. */
  function SumFormulaAsWritten(row: nat): seq<byte> {
    SumPrefix() + Decimal(row)
  }

  /** The formula closed: `SUM(D1:D<row>)`. */
  function SumFormula(row: nat): seq<byte> {
    SumPrefix() + Decimal(row) + [CloseParen]
  }

  /** The formula text of the TOTAL row: closed, or as the source builds it. */
  function TotalFormula(closed: bool, row: nat): seq<byte> {
    if closed then SumFormula(row) else SumFormulaAsWritten(row)
  }

  /**
   * Reads a formula of the shape `SUM(D1:D<digits>)` back: the last row of
   * the summed range. Any other text is not such a formula.
   */
  function SumRangeEnd(f: seq<byte>): Option<nat> {
    if |f| >= 10 && f[..8] == SumPrefix() && f[|f| - 1] == CloseParen
       && (forall i :: 8 <= i < |f| - 1 ==> IsDigit(f[i]))
    then Some(DecimalValue(f[8..|f| - 1]))
    else None
  }

  /** The closed formula sums up to exactly the row it names. */
  lemma {:induction false} SumFormulaRoundTrip(row: nat)
    ensures SumRangeEnd(SumFormula(row)) == Some(row)
  {
    var f := SumFormula(row);
    var d := Decimal(row);
    assert f[..8] == SumPrefix();
    assert f[8..|f| - 1] == d;
    DecimalRoundTrip(row);
  }

  /** The number of `b` bytes in `s`. */
  function Occurrences(s: seq<byte>, b: byte): nat
    decreases |s|
  {
    if s == [] then 0 else Occurrences(s[..|s| - 1], b) + (if s[|s| - 1] == b then 1 else 0)
  }

  lemma {:induction false} OccurrencesConcat(s: seq<byte>, t: seq<byte>, b: byte)
    ensures Occurrences(s + t, b) == Occurrences(s, b) + Occurrences(t, b)
    decreases |t|
  {
    if t == [] {
      assert s + t == s;
    } else {
      assert (s + t)[..|s + t| - 1] == s + t[..|t| - 1];
      OccurrencesConcat(s, t[..|t| - 1], b);
    }
  }

  lemma {:induction false} DigitsHaveNoParens(s: seq<byte>)
    requires forall i :: 0 <= i < |s| ==> IsDigit(s[i])
    ensures Occurrences(s, OpenParen) == 0 && Occurrences(s, CloseParen) == 0
  {
    NoOccurrences(s, OpenParen);
    NoOccurrences(s, CloseParen);
  }

  lemma {:induction false} NoOccurrences(s: seq<byte>, b: byte)
    requires b !in s
    ensures Occurrences(s, b) == 0
    decreases |s|
  {
    if s != [] {
      NoOccurrences(s[..|s| - 1], b);
    }
  }

  lemma {:induction false} SumPrefixParens()
    ensures Occurrences(SumPrefix(), OpenParen) == 1 && Occurrences(SumPrefix(), CloseParen) == 0
  {
    var sum, range := Ascii("SUM"), Ascii("D1:D");
    AsciiWithout("SUM", '(', OpenParen);
    AsciiWithout("SUM", ')', CloseParen);
    AsciiWithout("D1:D", '(', OpenParen);
    AsciiWithout("D1:D", ')', CloseParen);
    NoOccurrences(sum, OpenParen);
    NoOccurrences(sum, CloseParen);
    NoOccurrences(range, OpenParen);
    NoOccurrences(range, CloseParen);
    OccurrencesConcat(sum, [OpenParen], OpenParen);
    OccurrencesConcat(sum, [OpenParen], CloseParen);
    OccurrencesConcat(sum + [OpenParen], range, OpenParen);
    OccurrencesConcat(sum + [OpenParen], range, CloseParen);
    assert [OpenParen][..0] == [];
  }

  /**
   * The formula as written opens a parenthesis it never closes, so it is not
   * a formula of the shape `SUM(D1:D<row>)` at all.
   */
  lemma {:induction false} SumFormulaAsWrittenUnclosed(row: nat)
    ensures Occurrences(SumFormulaAsWritten(row), OpenParen) == 1
    ensures Occurrences(SumFormulaAsWritten(row), CloseParen) == 0
    ensures SumRangeEnd(SumFormulaAsWritten(row)) == None
  {
    var d := Decimal(row);
    SumPrefixParens();
    DigitsHaveNoParens(d);
    OccurrencesConcat(SumPrefix(), d, OpenParen);
    OccurrencesConcat(SumPrefix(), d, CloseParen);
    var f := SumFormulaAsWritten(row);
    assert f[|f| - 1] == d[|d| - 1];
  }

  /** The closed formula balances its parentheses. */
  lemma {:induction false} SumFormulaBalanced(row: nat)
    ensures Occurrences(SumFormula(row), OpenParen) == 1
    ensures Occurrences(SumFormula(row), CloseParen) == 1
  {
    var d := Decimal(row);
    SumPrefixParens();
    DigitsHaveNoParens(d);
    OccurrencesConcat(SumPrefix(), d, OpenParen);
    OccurrencesConcat(SumPrefix(), d, CloseParen);
    OccurrencesConcat(SumPrefix() + d, [CloseParen], OpenParen);
    OccurrencesConcat(SumPrefix() + d, [CloseParen], CloseParen);
    assert [CloseParen][..0] == [];
  }

  // ---------------------------------------------------------------------
  // The output path
  // ---------------------------------------------------------------------

  /** The report's file name. */
  const ReportName: Name := Ascii("inventory.xlsx")

  /** `PathBuf::from(path).join("inventory.xlsx")`. */
  function OutputPath(path: Name): (r: Name)
    ensures |r| >= |ReportName| && r[|r| - |ReportName|..] == ReportName
  {
    Push(path, ReportName)
  }

  lemma {:induction false} ReportNameIsWellFormed()
    ensures WellFormedName(ReportName)
  {
    AsciiWithout("inventory.xlsx", '/', Slash);
  }

  /** The report lands inside the inventoried directory, under the name `inventory.xlsx`. */
  lemma {:induction false} OutputPathInDirectory(dir: Path)
    requires ValidPath(dir) && dir != []
    ensures OutputPath(Render(dir)) == Render(dir + [Normal(ReportName)])
    ensures FileName(dir + [Normal(ReportName)]) == Some(ReportName)
    ensures Parent(dir + [Normal(ReportName)]) == Some(dir)
  {
    ReportNameIsWellFormed();
    PushInDirectory(dir, ReportName);
  }

  /** Pushing a name onto a directory's rendering renders the path of that name in the directory. */
  lemma {:induction false} PushInDirectory(dir: Path, n: Name)
    requires ValidPath(dir) && dir != [] && WellFormedName(n)
    ensures Push(Render(dir), n) == Render(dir + [Normal(n)])
    ensures FileName(dir + [Normal(n)]) == Some(n)
    ensures Parent(dir + [Normal(n)]) == Some(dir)
  {
    RenderPush(dir, n);
    assert (dir + [Normal(n)])[..|dir|] == dir;
  }

  // ---------------------------------------------------------------------
  // What the grid holds
  // ---------------------------------------------------------------------

  /** The grid after the header and `|done|` data rows sets rows 0..|done|, columns 0..3, and no other cell. */
  lemma {:induction false} RowsDomain(done: seq<ReportRow>)
    ensures forall c: Cell :: c in Rows(done) <==> c.0 <= |done| && c.1 < 4
    decreases |done|
  {
    if done != [] {
      RowsDomain(done[..|done| - 1]);
    }
  }

  /** Data rows never overwrite the header row, which keeps the four titles. */
  lemma {:induction false} RowsHeader(done: seq<ReportRow>)
    ensures forall col :: 0 <= col < 4 ==> (0, col) in Rows(done) && Rows(done)[(0, col)] == Text(HeaderTitle(col))
    decreases |done|
  {
    if done != [] {
      RowsHeader(done[..|done| - 1]);
    }
  }

  /** Row r, from 1 on, holds the cells of the r-th data row. */
  lemma {:induction false} RowsData(done: seq<ReportRow>)
    ensures forall r, col :: 1 <= r <= |done| && 0 <= col < 4 ==>
      (r, col) in Rows(done) && Rows(done)[(r, col)] == RowCell(done[r - 1], col)
  {
    forall r, col | 1 <= r <= |done| && 0 <= col < 4
      ensures (r, col) in Rows(done) && Rows(done)[(r, col)] == RowCell(done[r - 1], col)
    {
      RowsDataAt(done, r, col);
    }
  }

  lemma {:induction false} RowsDataAt(done: seq<ReportRow>, r: nat, col: nat)
    requires 1 <= r <= |done| && col < 4
    ensures (r, col) in Rows(done) && Rows(done)[(r, col)] == RowCell(done[r - 1], col)
    decreases |done|
  {
    var front, d := done[..|done| - 1], done[|done| - 1];
    assert Rows(done) == AddRow(Rows(front), |done|, d);
    if r == |done| {
      AddRowSets(Rows(front), r, d, col);
    } else {
      RowsDataAt(front, r, col);
      assert front[r - 1] == done[r - 1];
      AddRowKeeps(Rows(front), |done|, d, (r, col));
    }
  }

  /** Writing a data row sets each of its four cells. */
  lemma {:induction false} AddRowSets(g: Grid, row: nat, d: ReportRow, col: nat)
    requires col < 4
    ensures (row, col) in AddRow(g, row, d) && AddRow(g, row, d)[(row, col)] == RowCell(d, col)
  {
    var h := AddRow(g, row, d);
    if col == 0 { assert h[(row, 0)] == RowCell(d, 0); }
    else if col == 1 { assert h[(row, 1)] == RowCell(d, 1); }
    else if col == 2 { assert h[(row, 2)] == RowCell(d, 2); }
  }

  /** Writing a data row keeps every cell of the other rows. */
  lemma {:induction false} AddRowKeeps(g: Grid, row: nat, d: ReportRow, c: Cell)
    requires c in g && c.0 != row
    ensures c in AddRow(g, row, d) && AddRow(g, row, d)[c] == g[c]
  {
  }

  /** Columns 0 and 2 of a data row put the key back together. */
  lemma {:induction false} RowNamesKey(p: Path, count: nat)
    requires Splittable(p) && ValidPath(p)
    ensures ReportRowOf(p, count).directory != []
    ensures Push(ReportRowOf(p, count).directory, ReportRowOf(p, count).file) == Render(p)
  {
    var front := p[..|p| - 1];
    assert p == front + [Normal(FileName(p).value)];
    assert ValidPath(front) by {
      forall i | 0 <= i < |front| ensures front[i] == p[i] { }
    }
    assert WellFormedName(FileName(p).value) by {
      assert p[|p| - 1] == Normal(FileName(p).value);
    }
    RenderPush(front, FileName(p).value);
    if front == [RootDir] {
      assert Render(front) == [Slash];
    } else {
      RenderEnd(front);
    }
  }

  /** An iteration visits as many items as the map has. */
  lemma {:induction false} EntriesCountKeys(entries: seq<Entry>, inventory: map<Path, nat>)
    requires Enumerates(entries, inventory)
    ensures |entries| == |inventory|
    decreases |entries|
  {
    if entries != [] {
      var last := entries[|entries| - 1];
      EnumeratesFront(entries, inventory);
      EntriesCountKeys(entries[..|entries| - 1], inventory - {last.0});
      RemoveKeyCount(inventory, last.0);
    }
  }

  /** The items of a map whose keys are all printable have splittable keys, one item per key. */
  lemma {:induction false} PrintableKeysSplit(entries: seq<Entry>, inventory: map<Path, nat>)
    requires Enumerates(entries, inventory)
    requires forall p :: p in inventory ==> Printable(p)
    ensures AllSplittable(entries) && |entries| == |inventory|
  {
    EntriesCountKeys(entries, inventory);
    forall i | 0 <= i < |entries| ensures Splittable(entries[i].0) {
      assert Printable(entries[i].0);
    }
  }

  /** Without its last item, the iteration enumerates the map without that item's key. */
  lemma {:induction false} EnumeratesFront(entries: seq<Entry>, inventory: map<Path, nat>)
    requires Enumerates(entries, inventory) && entries != []
    ensures entries[|entries| - 1].0 in inventory
    ensures Enumerates(entries[..|entries| - 1], inventory - {entries[|entries| - 1].0})
  {
    var last := entries[|entries| - 1];
    var front := entries[..|entries| - 1];
    var rest := inventory - {last.0};
    forall q | q in rest ensures exists i :: 0 <= i < |front| && front[i].0 == q {
      var i :| 0 <= i < |entries| && entries[i].0 == q;
      assert i < |entries| - 1 && front[i] == entries[i];
    }
    forall i | 0 <= i < |front| ensures front[i].0 in rest && rest[front[i].0] == front[i].1 {
      assert entries[i].0 != entries[|entries| - 1].0;
    }
  }

  lemma {:induction false} RemoveKeyCount(m: map<Path, nat>, k: Path)
    requires k in m
    ensures |m - {k}| + 1 == |m|
  {
    assert m.Keys == (m - {k}).Keys + {k};
  }

  /**
   * The sheet of `n` data rows: the titles in row 0, data row i in row
   * i + 1, TOTAL and the formula in row n + 1, and no other cell.
   */
  lemma {:induction false} SheetCells(report: seq<ReportRow>, formula: seq<byte>)
    ensures var s, n := Sheet(report, formula), |report|;
      && (forall c: Cell :: c in s <==> (c.0 <= n && c.1 < 4) || c == (n + 1, 2) || c == (n + 1, 3))
      && (forall col :: 0 <= col < 4 ==> s[(0, col)] == Text(HeaderTitle(col)))
      && (forall r, col :: 1 <= r <= n && 0 <= col < 4 ==> s[(r, col)] == RowCell(report[r - 1], col))
      && s[(n + 1, 2)] == Text(Ascii("TOTAL"))
      && s[(n + 1, 3)] == Formula(formula)
  {
    RowsDomain(report);
    RowsHeader(report);
    RowsData(report);
  }

  /** The TOTAL row comes after every data row, so it leaves them as they are. */
  lemma {:induction false} SheetKeepsDataRows(report: seq<ReportRow>, formula: seq<byte>, r: nat, col: nat)
    requires r <= |report| && (r, col) in Rows(report)
    ensures (r, col) in Sheet(report, formula) && Sheet(report, formula)[(r, col)] == Rows(report)[(r, col)]
  {
  }

  /**
   * Cell `(row, 3)` of `sheet` shows `count` cast to `u32`: the count
   * modulo 2^32, which is the count itself whenever it fits.
   */
  predicate ShowsCount(sheet: Grid, row: nat, count: nat) {
    && (row, 3) in sheet
    && sheet[(row, 3)] == Number(count % U32Modulus)
    && (count < U32Modulus ==> sheet[(row, 3)] == Number(count))
  }

  /**
   * Every key of the inventory gets exactly one data row: the row of the
   * item the iteration visits it at, which shows its parent, second
   * component, file name and its count cast to `u32`.
   */
  lemma {:induction false} SheetLayout(inventory: map<Path, nat>, entries: seq<Entry>, formula: seq<byte>)
    requires Enumerates(entries, inventory)
    requires AllSplittable(entries)
    ensures |entries| == |inventory|
    ensures forall p :: p in inventory ==>
      exists i :: 0 <= i < |entries| && entries[i].0 == p && ShowsCount(Sheet(ReportRows(entries), formula), i + 1, inventory[p])
  {
    EntriesCountKeys(entries, inventory);
    var sheet := Sheet(ReportRows(entries), formula);
    forall p | p in inventory
      ensures exists i :: 0 <= i < |entries| && entries[i].0 == p && ShowsCount(sheet, i + 1, inventory[p])
    {
      var i :| 0 <= i < |entries| && entries[i].0 == p;
      DataRowCount(entries, formula, i);
      assert inventory[p] == entries[i].1;
    }
  }

  /** The count column of the row of the i-th item. */
  lemma {:induction false} DataRowCount(entries: seq<Entry>, formula: seq<byte>, i: nat)
    requires AllSplittable(entries) && i < |entries|
    ensures ShowsCount(Sheet(ReportRows(entries), formula), i + 1, entries[i].1)
  {
    var count := entries[i].1;
    assert count < U32Modulus ==> count % U32Modulus == count;
    var report := ReportRows(entries);
    RowsData(report);
    assert (i + 1, 3) in Rows(report) && Rows(report)[(i + 1, 3)] == RowCell(report[i], 3);
    SheetKeepsDataRows(report, formula, i + 1, 3);
  }

  // ---------------------------------------------------------------------
  // The writer
  // ---------------------------------------------------------------------

  /**
   * The cell writes of the source, in its order: the header row, one row
   * per entry with the `u32` row counter, then TOTAL and the SUM formula
   * of the TOTAL row, closed or as written. Returns that row; a write
   * outside the sheet ends it with `RowColumnLimit`.
   */
  method FillWorksheet(ws: Worksheet, entries: seq<Entry>, closed: bool) returns (r: Result<nat, XlsxError>)
    requires AllSplittable(entries) && ws.cells == map[]
    modifies ws
    ensures |entries| + 1 < RowMax ==>
      r == Ok(|entries| + 1) && ws.cells == Sheet(ReportRows(entries), TotalFormula(closed, |entries| + 1))
    ensures |entries| + 1 >= RowMax ==> r == Err(RowColumnLimit)
  {
    ghost var report := ReportRows(entries);
    // Row 0 is inside the sheet, so the header writes cannot fail.
    var w := ws.Write(0, 0, Text(HeaderTitle(0)));
    w := ws.Write(0, 1, Text(HeaderTitle(1)));
    w := ws.Write(0, 2, Text(HeaderTitle(2)));
    w := ws.Write(0, 3, Text(HeaderTitle(3)));
    var row: nat := 1;
    for i := 0 to |entries|
      invariant row == i + 1 && row <= RowMax && row < U32Modulus
      invariant ws.cells == Rows(report[..i])
    {
      w := WriteRow(ws, row, entries[i]);
      if w.Err? {
        return Err(RowColumnLimit);
      }
      RowsPrefixStep(report, i);
      row := row + 1;
    }
    assert report[..|report|] == report;
    w := ws.Write(row, 2, Text(Ascii("TOTAL")));
    if w.Err? {
      return Err(RowColumnLimit);
    }
    // Column 3 of the TOTAL row is inside the sheet once column 2 was.
    w := ws.Write(row, 3, Formula(TotalFormula(closed, row)));
    r := Ok(row);
  }

  /**
   * The four cells of one item's row, left to right. A row outside the
   * sheet fails at column 0 and leaves the sheet as it was.
   */
  method WriteRow(ws: Worksheet, row: nat, entry: Entry) returns (w: Result<(), XlsxError>)
    requires Splittable(entry.0)
    modifies ws
    ensures row < RowMax ==> w.Ok? && ws.cells == AddRow(old(ws.cells), row, ReportRowOf(entry.0, entry.1))
    ensures row >= RowMax ==> w == Err(RowColumnLimit) && ws.cells == old(ws.cells)
  {
    var path, lineCount := entry.0, entry.1;
    var fileName := FileName(path).value;
    var parent := Render(Parent(path).value);
    var ancestorComponent := ComponentBytes(path[1]);
    w := ws.Write(row, 0, Text(parent));
    if w.Err? {
      return;
    }
    // Columns 1 to 3 of a row whose column 0 was written are inside the sheet too.
    w := ws.Write(row, 1, Text(ancestorComponent));
    w := ws.Write(row, 2, Text(fileName));
    w := ws.Write(row, 3, Number(lineCount % U32Modulus));
  }

  /**
   * `write_inventory` as written: the sheet is filled, with the formula
   * left unclosed, but never pushed into the workbook, so the saved file
   * holds only the blank default sheet.
   */
  method WriteInventory(inventory: map<Path, nat>, entries: seq<Entry>, path: Name, written: bool)
    returns (r: Result<SavedFile, XlsxError>)
    requires Enumerates(entries, inventory)
    requires forall p :: p in inventory ==> Printable(p)
    ensures |inventory| + 1 >= RowMax ==> r == Err(RowColumnLimit)
    ensures |inventory| + 1 < RowMax && !written ==> r == Err(SaveFailed)
    ensures |inventory| + 1 < RowMax && written ==> r == Ok(SavedFile(OutputPath(path), [map[]]))
  {
    PrintableKeysSplit(entries, inventory);
    var workbook := new Workbook();
    var worksheet := new Worksheet();
    var filled := FillWorksheet(worksheet, entries, false);
    if filled.Err? {
      return Err(filled.error);
    }
    r := workbook.Save(OutputPath(path), written);
  }

  /**
   * `write_inventory` with the sheet pushed into the workbook before saving
   * and the formula closed: the saved file holds the sheet the layout describes.
   */
  method WriteInventoryFixed(inventory: map<Path, nat>, entries: seq<Entry>, path: Name, written: bool)
    returns (r: Result<SavedFile, XlsxError>)
    requires Enumerates(entries, inventory)
    requires forall p :: p in inventory ==> Printable(p)
    ensures |inventory| + 1 >= RowMax ==> r == Err(RowColumnLimit)
    ensures |inventory| + 1 < RowMax && !written ==> r == Err(SaveFailed)
    ensures |inventory| + 1 < RowMax && written ==>
      AllSplittable(entries) && r == Ok(SavedFile(OutputPath(path), [Sheet(ReportRows(entries), SumFormula(|inventory| + 1))]))
  {
    PrintableKeysSplit(entries, inventory);
    var workbook := new Workbook();
    var worksheet := new Worksheet();
    var filled := FillWorksheet(worksheet, entries, true);
    if filled.Err? {
      return Err(filled.error);
    }
    ghost var sheet := worksheet.cells;
    assert sheet == Sheet(ReportRows(entries), SumFormula(|inventory| + 1));
    workbook.PushWorksheet(worksheet);
    assert workbook.sheets == [sheet];
    r := workbook.Save(OutputPath(path), written);
  }
}
