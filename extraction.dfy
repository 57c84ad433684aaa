/** The row pipeline of app.py (lines 21-65): one decoded sheet and a class label in,
    a batch of bills and a batch of credits out. Every step is a function on frames;
    the first failing step decides the error and nothing downstream happens. */
module Extraction {
  import opened Seqs
  import opened Text
  import opened Results
  import opened Dates
  import opened Cells
  import opened Amounts
  import opened Frames

  /** `pd.to_datetime(..., errors="coerce")` on one cell: a date, or None for NaT.
      Its parsing rules are not modelled; the pipeline takes them as a parameter. */
  type DateParser = Cell -> Option<Date>

  /** The header is the fifth row of the sheet; the four rows above are a title block. */
  const HeaderIndex: nat := 4

  const UnnamedPrefix := "Unnamed"
  const MarkerColumn := "Unnamed: 9"
  const SelectColumn := "Select"
  const DateColumn := "Date"
  const DueColumn := "Due date"
  const BalanceColumn := "Open balance"
  const AmountColumn := "Amount"
  const ClassColumn := "Class"
  const VendorColumn := "Vendor display name"
  const NumColumn := "Num"

  /** The columns `format_output` projects, in projection order. */
  const SourceColumns := [VendorColumn, DateColumn, DueColumn, BalanceColumn, NumColumn, ClassColumn]

  /** The exported columns, in this order. */
  const OutputColumns := ["Vendor", "BillDate", "DueDate", "Amount", "RefNumber", "Class"]

  // ---------------------------------------------------------------------------
  // Reading the sheet (app.py:21)

  /** The name pandas gives column `j` from its header cell: a blank cell is named
      positionally, "Unnamed: j". */
  function ColumnName(c: Cell, j: nat): Option<string>
  {
    match c
    case Blank => Some(UnnamedPrefix + ": " + NatText(j))
    case Str(s) => Some(s)
    case Num(_) => None
    case When(_) => None
  }

  /** A blank header cell in the tenth column is exactly the marker column. */
  lemma BlankTenthHeaderIsMarker()
    ensures ColumnName(Blank, 9) == Some(MarkerColumn)
  {
    assert NatText(9) == "9";
    assert UnnamedPrefix + ": " + "9" == MarkerColumn;
  }

  /** The cell of a line under column `j`; a short line reads as blank there. */
  function CellAt(line: seq<Cell>, j: nat): Cell
  {
    if j < |line| then line[j] else Blank
  }

  /** The length of a line once its trailing empty cells are trimmed. */
  function TrimmedLength(line: seq<Cell>): (n: nat)
    ensures n <= |line|
    ensures forall j :: n <= j < |line| ==> line[j] == Blank
    ensures n > 0 ==> line[n - 1] != Blank
  {
    if line == [] || line[|line| - 1] != Blank then |line| else TrimmedLength(line[..|line| - 1])
  }

  /** How many columns the sheet has: every line is padded to the widest trimmed
      line, title rows included. */
  function Width(sheet: seq<seq<Cell>>): (w: nat)
    ensures forall k :: 0 <= k < |sheet| ==> TrimmedLength(sheet[k]) <= w
    ensures w == 0 || exists k :: 0 <= k < |sheet| && TrimmedLength(sheet[k]) == w
  {
    if sheet == [] then 0
    else
      var w := Width(sheet[1..]);
      assert forall k :: 1 <= k < |sheet| ==> sheet[k] == sheet[1..][k - 1];
      if TrimmedLength(sheet[0]) > w then TrimmedLength(sheet[0]) else w
  }

  /** The header line padded (or cut) to the sheet's width. */
  function HeaderLine(sheet: seq<seq<Cell>>): (h: seq<Cell>)
    requires |sheet| > HeaderIndex
    ensures |h| == Width(sheet)
    ensures forall j :: 0 <= j < |h| ==> h[j] == CellAt(sheet[HeaderIndex], j)
  {
    seq(Width(sheet), j requires 0 <= j => CellAt(sheet[HeaderIndex], j))
  }

  /** The names of the header cells from position `j` on, or the first cell that
      cannot name a column. */
  function HeaderNames(header: seq<Cell>, j: nat): (r: Result<seq<string>>)
    requires j <= |header|
    ensures r.Ok? <==> forall i :: j <= i < |header| ==> ColumnName(header[i], i).Some?
    ensures r.Ok? ==> |r.value| == |header| - j
    ensures r.Ok? ==> forall i :: j <= i < |header| ==> ColumnName(header[i], i) == Some(r.value[i - j])
    ensures r.Err? ==> r.error.HeaderNotText? && j <= r.error.column < |header|
                       && ColumnName(header[r.error.column], r.error.column).None?
    ensures r.Err? ==> forall i :: j <= i < r.error.column ==> ColumnName(header[i], i).Some?
    decreases |header| - j
  {
    if j == |header| then Ok([])
    else match ColumnName(header[j], j)
      case None => Err(HeaderNotText(j))
      case Some(name) =>
        match HeaderNames(header, j + 1)
        case Err(e) => Err(e)
        case Ok(rest) => Ok([name] + rest)
  }

  /** One body row keyed by the column names. */
  function RowOf(names: seq<string>, line: seq<Cell>): (r: Row)
    requires Distinct(names)
    ensures r.Keys == Names(names)
    ensures forall j :: 0 <= j < |names| ==> r[names[j]] == CellAt(line, j)
  {
    var r := map j | 0 <= j < |names| :: names[j] := CellAt(line, j);
    assert r.Keys == Names(names) by {
      forall c | c in Names(names) ensures c in r {
        var j :| 0 <= j < |names| && names[j] == c;
      }
    }
    r
  }

  /** The records under a header: one row per body line, in order. */
  function BodyFrame(names: seq<string>, lines: seq<seq<Cell>>): (f: Frame)
    requires Distinct(names)
    ensures WellFormed(f) && f.columns == names && |f.rows| == |lines|
    ensures forall k, j :: 0 <= k < |lines| && 0 <= j < |names| ==>
              f.rows[k][names[j]] == CellAt(lines[k], j)
  {
    var rows := seq(|lines|, k requires 0 <= k < |lines| => RowOf(names, lines[k]));
    forall row | row in rows ensures row.Keys == Names(names) {
      var k :| 0 <= k < |lines| && rows[k] == row;
      assert rows[k] == RowOf(names, lines[k]);
    }
    forall k, j | 0 <= k < |lines| && 0 <= j < |names|
      ensures rows[k][names[j]] == CellAt(lines[k], j)
    {
      assert rows[k] == RowOf(names, lines[k]);
    }
    Frame(names, rows)
  }

  /** `pd.read_excel(file, sheet_name=0, header=4)` on an already decoded first sheet:
      row 4 names the columns, one per position up to the sheet's width, rows 0-3
      are dropped, every later row is a record. */
  function ReadSheet(sheet: seq<seq<Cell>>): (r: Result<Frame>)
    ensures r == Err(SheetTooShort) <==> |sheet| <= HeaderIndex
    ensures r.Ok? <==> && |sheet| > HeaderIndex
                       && HeaderNames(HeaderLine(sheet), 0).Ok?
                       && Distinct(HeaderNames(HeaderLine(sheet), 0).value)
    ensures r.Err? && r.error.HeaderNotText? ==>
              && |sheet| > HeaderIndex && r.error.column < Width(sheet)
              && ColumnName(CellAt(sheet[HeaderIndex], r.error.column), r.error.column).None?
    ensures r.Err? && r.error.HeaderNotText? ==>
              forall i :: 0 <= i < r.error.column ==> ColumnName(CellAt(sheet[HeaderIndex], i), i).Some?
    ensures r.Err? ==> r.error.SheetTooShort? || r.error.HeaderNotText? || r.error.DuplicateHeader?
    ensures r.Ok? ==> WellFormed(r.value)
    ensures r.Ok? ==> |r.value.columns| == Width(sheet)
    ensures r.Ok? ==> forall j :: 0 <= j < |r.value.columns| ==>
                        ColumnName(CellAt(sheet[HeaderIndex], j), j) == Some(r.value.columns[j])
    ensures r.Ok? ==> |r.value.rows| == |sheet| - HeaderIndex - 1
    ensures r.Ok? ==> forall k, j :: 0 <= k < |r.value.rows| && 0 <= j < |r.value.columns| ==>
                        r.value.rows[k][r.value.columns[j]] == CellAt(sheet[HeaderIndex + 1 + k], j)
  {
    if |sheet| <= HeaderIndex then Err(SheetTooShort)
    else
      var names :- HeaderNames(HeaderLine(sheet), 0);
      if !Distinct(names) then Err(DuplicateHeader)
      else
        var body := sheet[HeaderIndex + 1..];
        assert forall k :: 0 <= k < |body| ==> body[k] == sheet[HeaderIndex + 1 + k];
        Ok(BodyFrame(names, body))
  }

  /** When any line reaches the tenth column, a header that is blank there (or
      stops short of it) gives the marker column, wherever the header line ends. */
  lemma MarkerColumnFromWidth(sheet: seq<seq<Cell>>)
    requires ReadSheet(sheet).Ok? && Width(sheet) > 9
    requires CellAt(sheet[HeaderIndex], 9) == Blank
    ensures ReadSheet(sheet).value.columns[9] == MarkerColumn
  {
    BlankTenthHeaderIsMarker();
  }

  // ---------------------------------------------------------------------------
  // Column normalisation (app.py:24-28)

  /** `str.contains("^Unnamed")`: the name starts with "Unnamed". */
  predicate IsUnnamed(name: string)
  {
    StartsWith(name, UnnamedPrefix)
  }

  /** The marker column is renamed to "Select", then every column whose name
      starts with "Unnamed" is dropped. A sheet that already has a "Select" column
      beside the marker ends up with two "Select" columns, which the selection
      filter cannot read. */
  function NormaliseColumns(f: Frame): (r: Result<Frame>)
    requires WellFormed(f)
    ensures r.Err? <==> MarkerColumn in f.columns && SelectColumn in f.columns
    ensures r.Err? ==> r.error == AmbiguousColumn(SelectColumn)
    ensures r.Ok? ==> WellFormed(r.value) && |r.value.rows| == |f.rows|
    ensures r.Ok? ==> forall c :: c in r.value.columns ==> !IsUnnamed(c)
    ensures r.Ok? ==> forall c :: c in r.value.columns <==>
                        (c in f.columns && !IsUnnamed(c)) || (c == SelectColumn && MarkerColumn in f.columns)
    ensures r.Ok? && MarkerColumn in f.columns ==>
              forall k :: 0 <= k < |f.rows| ==> r.value.rows[k][SelectColumn] == f.rows[k][MarkerColumn]
    ensures r.Ok? ==> forall k, c :: 0 <= k < |f.rows| && c in r.value.rows[k] && c != SelectColumn ==>
                        r.value.rows[k][c] == f.rows[k][c]
    ensures r.Ok? && MarkerColumn !in f.columns ==>
              forall k :: 0 <= k < |f.rows| && SelectColumn in f.columns ==>
                SelectColumn in r.value.rows[k] && r.value.rows[k][SelectColumn] == f.rows[k][SelectColumn]
  {
    if MarkerColumn in f.columns && SelectColumn in f.columns then Err(AmbiguousColumn(SelectColumn))
    else
      assert !IsUnnamed(SelectColumn);
      var g := if MarkerColumn in f.columns then RenameColumn(f, MarkerColumn, SelectColumn) else f;
      var h := DropColumnsWhere(g, IsUnnamed);
      forall k | 0 <= k < |f.rows| ensures SelectColumn in g.rows[k] ==> SelectColumn in h.rows[k] {
        assert g.rows[k] in g.rows && h.rows[k] in h.rows;
      }
      Ok(h)
  }

  // ---------------------------------------------------------------------------
  // Dropping junk rows (app.py:31-33)

  /** The row is not a repeated header line. */
  predicate NotRepeatedHeader(r: Row)
  {
    DateColumn in r && r[DateColumn] != Str(DateColumn)
  }

  /** The row's date parses. */
  predicate HasDate(parse: DateParser, r: Row)
  {
    DateColumn in r && parse(r[DateColumn]).Some?
  }

  predicate IsDated(parse: DateParser, r: Row)
  {
    NotRepeatedHeader(r) && HasDate(parse, r)
  }

  /** Rows whose Date is the text "Date" go, then rows whose Date does not parse;
      every copy of every other row stays, in its order. */
  function DropJunkRows(f: Frame, parse: DateParser): (r: Result<Frame>)
    requires WellFormed(f)
    ensures r.Err? <==> DateColumn !in f.columns
    ensures r.Err? ==> r.error == MissingColumn(DateColumn)
    ensures r.Ok? ==> WellFormed(r.value) && r.value.columns == f.columns
    ensures r.Ok? ==> forall row :: row in r.value.rows <==> row in f.rows && IsDated(parse, row)
    ensures r.Ok? ==> forall row ::
              multiset(r.value.rows)[row] == if IsDated(parse, row) then multiset(f.rows)[row] else 0
    ensures r.Ok? ==> IsSubseq(r.value.rows, f.rows)
  {
    if DateColumn !in f.columns then Err(MissingColumn(DateColumn))
    else
      var g := FilterRows(f, NotRepeatedHeader);
      var h := FilterRows(g, row => HasDate(parse, row));
      SubseqTrans(h.rows, g.rows, f.rows);
      Ok(h)
  }

  // ---------------------------------------------------------------------------
  // Selection (app.py:36)

  /** `str(Select).lower() == "x"`. */
  predicate IsSelected(r: Row)
  {
    SelectColumn in r && Marked(r[SelectColumn])
  }

  /** Only the rows the operator marked remain, every copy, in their order. */
  function KeepSelected(f: Frame): (r: Result<Frame>)
    requires WellFormed(f)
    ensures r.Err? <==> SelectColumn !in f.columns
    ensures r.Err? ==> r.error == MissingColumn(SelectColumn)
    ensures r.Ok? ==> WellFormed(r.value) && r.value.columns == f.columns
    ensures r.Ok? ==> forall row :: row in r.value.rows <==> row in f.rows && IsSelected(row)
    ensures r.Ok? ==> forall row ::
              multiset(r.value.rows)[row] == if IsSelected(row) then multiset(f.rows)[row] else 0
    ensures r.Ok? ==> IsSubseq(r.value.rows, f.rows)
  {
    if SelectColumn !in f.columns then Err(MissingColumn(SelectColumn))
    else Ok(FilterRows(f, IsSelected))
  }

  /** Lines 21-28: the sheet read and its columns normalised, one row per body line. */
  function Normalised(sheet: seq<seq<Cell>>): (r: Result<Frame>)
    ensures r.Ok? <==> ReadSheet(sheet).Ok? && NormaliseColumns(ReadSheet(sheet).value).Ok?
    ensures r.Ok? ==> WellFormed(r.value) && |r.value.rows| == |sheet| - HeaderIndex - 1
    ensures r.Ok? ==> forall c :: c in r.value.columns ==> !IsUnnamed(c)
  {
    var f :- ReadSheet(sheet);
    NormaliseColumns(f)
  }

  /** Lines 21-36 in sequence: read, normalise the columns, drop junk rows, keep
      the marked rows. The result is every copy of every dated, marked row of the
      normalised sheet, in sheet order; it fails only when reading fails or the
      Date or Select column is missing. */
  function SelectedRows(sheet: seq<seq<Cell>>, parse: DateParser): (r: Result<Frame>)
    ensures r.Ok? <==> && Normalised(sheet).Ok?
                       && DateColumn in Normalised(sheet).value.columns
                       && SelectColumn in Normalised(sheet).value.columns
    ensures r.Err? && Normalised(sheet).Ok? ==>
              r.error == MissingColumn(if DateColumn in Normalised(sheet).value.columns then SelectColumn else DateColumn)
    ensures r.Ok? ==> WellFormed(r.value)
    ensures r.Ok? ==> forall c :: c in r.value.columns ==> !IsUnnamed(c)
    ensures r.Ok? ==> DateColumn in r.value.columns && SelectColumn in r.value.columns
    ensures r.Ok? ==> forall row :: row in r.value.rows ==> IsDated(parse, row) && IsSelected(row)
    ensures r.Ok? ==> && Normalised(sheet).Ok?
                      && r.value.columns == Normalised(sheet).value.columns
                      && IsSubseq(r.value.rows, Normalised(sheet).value.rows)
    ensures r.Ok? ==> && Normalised(sheet).Ok?
                      && forall row :: multiset(r.value.rows)[row] ==
                           if IsDated(parse, row) && IsSelected(row) then multiset(Normalised(sheet).value.rows)[row] else 0
  {
    var g :- Normalised(sheet);
    var h :- DropJunkRows(g, parse);
    var k :- KeepSelected(h);
    SubseqTrans(k.rows, h.rows, g.rows);
    Ok(k)
  }

  // ---------------------------------------------------------------------------
  // Amount, balance and class (app.py:42-48)

  /** `astype(float)` applied down the balance column after the commas are gone:
      the first cell that cannot be read fails the whole column. */
  function ParseBalanceRows(rows: seq<Row>): (r: Result<seq<Row>>)
    requires forall row :: row in rows ==> BalanceColumn in row
    ensures r.Err? <==> exists k :: 0 <= k < |rows| && BalanceOf(rows[k][BalanceColumn]).Err?
    ensures r.Err? ==> exists k :: 0 <= k < |rows| && BalanceOf(rows[k][BalanceColumn]) == Err(r.error)
    ensures r.Ok? ==> |r.value| == |rows|
    ensures r.Ok? ==> forall k :: 0 <= k < |rows| ==>
                        r.value[k] == rows[k][BalanceColumn := BalanceOf(rows[k][BalanceColumn]).value]
  {
    if rows == [] then Ok([])
    else
      assert rows[0] in rows;
      match BalanceOf(rows[0][BalanceColumn])
      case Err(e) => Err(e)
      case Ok(c) =>
        assert forall row :: row in rows[1..] ==> row in rows;
        match ParseBalanceRows(rows[1..])
        case Err(e) =>
          assert forall k :: 0 <= k < |rows[1..]| ==> rows[1..][k] == rows[k + 1];
          Err(e)
        case Ok(rest) =>
          assert forall k :: 0 <= k < |rows[1..]| ==> rows[1..][k] == rows[k + 1];
          Ok([rows[0][BalanceColumn := c]] + rest)
  }

  /** Line 45 on a frame: every open balance is read as a number. */
  function ParseBalances(g: Frame): (r: Result<Frame>)
    requires WellFormed(g)
    ensures r.Err? <==> BalanceColumn !in g.columns
                        || exists k :: 0 <= k < |g.rows| && BalanceOf(g.rows[k][BalanceColumn]).Err?
    ensures r.Err? && BalanceColumn !in g.columns ==> r.error == MissingColumn(BalanceColumn)
    ensures r.Ok? ==> WellFormed(r.value) && r.value.columns == g.columns && |r.value.rows| == |g.rows|
    ensures r.Ok? ==> forall k :: 0 <= k < |g.rows| ==>
                        r.value.rows[k] == g.rows[k][BalanceColumn := BalanceOf(g.rows[k][BalanceColumn]).value]
  {
    if BalanceColumn !in g.columns then Err(MissingColumn(BalanceColumn))
    else
      assert forall row :: row in g.rows ==> BalanceColumn in row;
      var rows :- ParseBalanceRows(g.rows);
      assert WellFormed(Frame(g.columns, rows)) by {
        forall row | row in rows ensures row.Keys == Names(g.columns) {
          var k :| 0 <= k < |rows| && rows[k] == row;
          assert g.rows[k] in g.rows;
        }
      }
      Ok(Frame(g.columns, rows))
  }

  /** Lines 42-43: a pre-existing Amount column is removed, so that renaming the
      open balance to Amount later cannot produce two Amount columns. */
  function DropStaleAmount(f: Frame): (g: Frame)
    requires WellFormed(f)
    ensures WellFormed(g) && |g.rows| == |f.rows|
    ensures forall c :: c in g.columns <==> c in f.columns && c != AmountColumn
    ensures forall k, c :: 0 <= k < |f.rows| && c in f.rows[k] && c != AmountColumn ==>
              c in g.rows[k] && g.rows[k][c] == f.rows[k][c]
  {
    if AmountColumn in f.columns then DropColumn(f, AmountColumn) else f
  }

  /** The open balance cells are the same before and after the Amount drop, so the
      same rows fail to parse. */
  lemma SameBalances(f: Frame, g: Frame)
    requires WellFormed(f) && g == DropStaleAmount(f)
    ensures BalanceColumn in f.columns ==>
              forall k :: 0 <= k < |f.rows| ==> g.rows[k][BalanceColumn] == f.rows[k][BalanceColumn]
    ensures BalanceColumn in f.columns ==>
              ((exists k :: 0 <= k < |g.rows| && BalanceOf(g.rows[k][BalanceColumn]).Err?)
               <==> (exists k :: 0 <= k < |f.rows| && BalanceOf(f.rows[k][BalanceColumn]).Err?))
  {
    if BalanceColumn in f.columns {
      forall k | 0 <= k < |f.rows| ensures g.rows[k][BalanceColumn] == f.rows[k][BalanceColumn] {
        assert f.rows[k] in f.rows;
      }
    }
  }

  /** Lines 42-48: a stale Amount column is dropped, the open balance becomes a
      number (or NaN for a missing cell) and every row is stamped with the class. */
  function Prepare(f: Frame, classLabel: string): (r: Result<Frame>)
    requires WellFormed(f)
    ensures r.Err? <==> BalanceColumn !in f.columns
                        || exists k :: 0 <= k < |f.rows| && BalanceOf(f.rows[k][BalanceColumn]).Err?
    ensures r.Err? && BalanceColumn !in f.columns ==> r.error == MissingColumn(BalanceColumn)
    ensures r.Ok? ==> WellFormed(r.value) && |r.value.rows| == |f.rows|
    ensures r.Ok? ==> AmountColumn !in r.value.columns && BalanceColumn in r.value.columns
                      && ClassColumn in r.value.columns
    ensures r.Ok? ==> forall k :: 0 <= k < |f.rows| ==>
                        && r.value.rows[k][ClassColumn] == Str(classLabel)
                        && r.value.rows[k][BalanceColumn] == BalanceOf(f.rows[k][BalanceColumn]).value
    ensures r.Ok? ==> forall k, c :: 0 <= k < |f.rows| && c in f.rows[k] && c != AmountColumn && c != BalanceColumn && c != ClassColumn ==>
                        c in r.value.rows[k] && r.value.rows[k][c] == f.rows[k][c]
  {
    var g := DropStaleAmount(f);
    SameBalances(f, g);
    assert AmountDropped(f, g);
    var h :- ParseBalances(g);
    BalancesParsed(f, g, h);
    PreparedShape(f, g, h, classLabel);
    PreparedStamp(f, h, classLabel);
    PrepareKeepsCells(f, g, h, classLabel);
    Ok(SetColumn(h, ClassColumn, Str(classLabel)))
  }

  /** `g` is `f` without its Amount column. */
  ghost predicate AmountDropped(f: Frame, g: Frame)
  {
    && WellFormed(f) && WellFormed(g) && |g.rows| == |f.rows|
    && (forall c :: c in g.columns <==> c in f.columns && c != AmountColumn)
    && (forall k, c :: 0 <= k < |f.rows| && c in f.rows[k] && c != AmountColumn ==>
          c in g.rows[k] && g.rows[k][c] == f.rows[k][c])
  }

  /** `h` has the columns and rows of `g`, and every cell outside the balance column. */
  ghost predicate OtherCellsKept(g: Frame, h: Frame)
  {
    && WellFormed(h) && h.columns == g.columns && |h.rows| == |g.rows| && BalanceColumn in g.columns
    && (forall k, c :: 0 <= k < |g.rows| && c in g.rows[k] && c != BalanceColumn ==>
          c in h.rows[k] && h.rows[k][c] == g.rows[k][c])
  }

  /** The balance of every row of `h` is the number read from the row of `f`. */
  ghost predicate BalancesRead(f: Frame, h: Frame)
  {
    forall k :: 0 <= k < |f.rows| ==>
      && k < |h.rows|
      && BalanceColumn in f.rows[k] && BalanceOf(f.rows[k][BalanceColumn]).Ok?
      && BalanceColumn in h.rows[k] && h.rows[k][BalanceColumn] == BalanceOf(f.rows[k][BalanceColumn]).value
  }

  /** Reading the balances keeps every other cell and reads each row's balance. */
  lemma BalancesParsed(f: Frame, g: Frame, h: Frame)
    requires AmountDropped(f, g) && ParseBalances(g) == Ok(h)
    ensures OtherCellsKept(g, h) && BalancesRead(f, h)
  {
    assert OtherCellsKept(g, h) by {
      forall k, c | 0 <= k < |g.rows| && c in g.rows[k] && c != BalanceColumn
        ensures c in h.rows[k] && h.rows[k][c] == g.rows[k][c]
      {
        assert g.rows[k] in g.rows;
      }
    }
    assert BalancesRead(f, h) by {
      forall k | 0 <= k < |f.rows|
        ensures BalanceColumn in f.rows[k] && BalanceOf(f.rows[k][BalanceColumn]).Ok?
        ensures BalanceColumn in h.rows[k] && h.rows[k][BalanceColumn] == BalanceOf(f.rows[k][BalanceColumn]).value
      {
        assert f.rows[k] in f.rows;
        assert g.rows[k][BalanceColumn] == f.rows[k][BalanceColumn];
      }
    }
  }

  /** Stamping the class after converting the balances: the Amount column is gone
      and the balance and class columns are there, one row per input row. */
  lemma PreparedShape(f: Frame, g: Frame, h: Frame, classLabel: string)
    requires AmountDropped(f, g) && OtherCellsKept(g, h)
    ensures var s := SetColumn(h, ClassColumn, Str(classLabel));
      && WellFormed(s) && |s.rows| == |f.rows|
      && AmountColumn !in s.columns && BalanceColumn in s.columns && ClassColumn in s.columns
  {
    assert AmountColumn != ClassColumn;
  }

  /** Every prepared row carries the label as its class and its balance as a number. */
  lemma PreparedStamp(f: Frame, h: Frame, classLabel: string)
    requires WellFormed(h) && |h.rows| == |f.rows| && BalancesRead(f, h)
    ensures var s := SetColumn(h, ClassColumn, Str(classLabel));
      forall k :: 0 <= k < |f.rows| ==>
        && s.rows[k][ClassColumn] == Str(classLabel)
        && s.rows[k][BalanceColumn] == BalanceOf(f.rows[k][BalanceColumn]).value
  {
    var s := SetColumn(h, ClassColumn, Str(classLabel));
    forall k | 0 <= k < |f.rows|
      ensures s.rows[k][ClassColumn] == Str(classLabel)
      ensures s.rows[k][BalanceColumn] == BalanceOf(f.rows[k][BalanceColumn]).value
    {
      assert s.rows[k] == h.rows[k][ClassColumn := Str(classLabel)];
    }
  }

  /** Every other cell of a prepared row is the input row's cell. */
  lemma PrepareKeepsCells(f: Frame, g: Frame, h: Frame, classLabel: string)
    requires AmountDropped(f, g) && OtherCellsKept(g, h)
    ensures var s := SetColumn(h, ClassColumn, Str(classLabel));
      forall k, c :: 0 <= k < |f.rows| && c in f.rows[k] && c != AmountColumn && c != BalanceColumn && c != ClassColumn ==>
        c in s.rows[k] && s.rows[k][c] == f.rows[k][c]
  {
    var s := SetColumn(h, ClassColumn, Str(classLabel));
    forall k, c | 0 <= k < |f.rows| && c in f.rows[k] && c != AmountColumn && c != BalanceColumn && c != ClassColumn
      ensures c in s.rows[k] && s.rows[k][c] == f.rows[k][c]
    {
      assert c in g.rows[k];
      assert s.rows[k] == h.rows[k][ClassColumn := Str(classLabel)];
    }
  }

  // ---------------------------------------------------------------------------
  // Split by sign (app.py:51-52)

  /** A bill has a positive open balance. */
  predicate IsBill(r: Row)
  {
    BalanceColumn in r && r[BalanceColumn].Num? && r[BalanceColumn].x > 0.0
  }

  /** A credit has a negative open balance. */
  predicate IsCredit(r: Row)
  {
    BalanceColumn in r && r[BalanceColumn].Num? && r[BalanceColumn].x < 0.0
  }

  /** A row that goes to one of the two outputs: its balance is a non-zero number. */
  predicate IsNonZero(r: Row)
  {
    BalanceColumn in r && r[BalanceColumn].Num? && r[BalanceColumn].x != 0.0
  }

  datatype Split = Split(bills: Frame, credits: Frame)

  /** `df[df["Open balance"] > 0]` and `df[df["Open balance"] < 0]`. */
  function SplitBySign(g: Frame): (s: Split)
    requires WellFormed(g)
    ensures WellFormed(s.bills) && WellFormed(s.credits)
    ensures s.bills.columns == g.columns && s.credits.columns == g.columns
    ensures forall r :: r in s.bills.rows <==> r in g.rows && IsBill(r)
    ensures forall r :: r in s.credits.rows <==> r in g.rows && IsCredit(r)
    ensures forall r :: multiset(s.bills.rows)[r] == if IsBill(r) then multiset(g.rows)[r] else 0
    ensures forall r :: multiset(s.credits.rows)[r] == if IsCredit(r) then multiset(g.rows)[r] else 0
  {
    Split(FilterRows(g, IsBill), FilterRows(g, IsCredit))
  }

  /** The two outputs partition exactly the rows with a non-zero balance: a row
      with a zero or missing balance is in neither, every other row is in exactly
      one, and each output keeps the input order. */
  lemma SplitPartition(g: Frame)
    requires WellFormed(g)
    ensures var s := SplitBySign(g);
      && multiset(s.bills.rows) + multiset(s.credits.rows) == multiset(Keep(g.rows, IsNonZero))
      && IsSubseq(s.bills.rows, g.rows) && IsSubseq(s.credits.rows, g.rows)
      && (forall r :: r in g.rows && !IsNonZero(r) ==> r !in s.bills.rows && r !in s.credits.rows)
  {
    var s := SplitBySign(g);
    KeepDisjointUnion(g.rows, IsBill, IsCredit, IsNonZero);
    KeepIsSubseq(g.rows, IsBill);
    KeepIsSubseq(g.rows, IsCredit);
  }

  // ---------------------------------------------------------------------------
  // Output shape (app.py:54-65)

  /** `to_datetime(..., errors="coerce").dt.strftime("%m/%d/%Y")` on one cell:
      a date that parses is written as MM/DD/YYYY; one that does not becomes a
      missing cell, never an error. */
  function FormatDate(parse: DateParser, c: Cell): (r: Cell)
    ensures r == Blank <==> parse(c).None?
    ensures r != Blank ==> r.Str? && |r.text| == 10 && ParseMDY(r.text) == parse(c)
  {
    match parse(c)
    case None => Blank
    case Some(d) =>
      FormatThenParse(d);
      Str(FormatMDY(d))
  }

  /** The row has a cell under every column `format_output` projects. */
  predicate HasSources(r: Row)
  {
    forall c :: c in SourceColumns ==> c in r
  }

  predicate AllSourced(rows: seq<Row>)
  {
    forall r :: r in rows ==> HasSources(r)
  }

  /** One record of the export, taken from one prepared row. */
  function OutputRow(parse: DateParser, r: Row): (o: Row)
    requires HasSources(r)
    ensures o.Keys == Names(OutputColumns)
  {
    map["Vendor" := r[VendorColumn],
        "BillDate" := FormatDate(parse, r[DateColumn]),
        "DueDate" := FormatDate(parse, r[DueColumn]),
        "Amount" := r[BalanceColumn],
        "RefNumber" := r[NumColumn],
        "Class" := r[ClassColumn]]
  }

  /** Where each record cell comes from. */
  lemma OutputRowCells(parse: DateParser, r: Row)
    requires HasSources(r)
    ensures var o := OutputRow(parse, r);
      && o["Vendor"] == r[VendorColumn] && o["RefNumber"] == r[NumColumn]
      && o["BillDate"] == FormatDate(parse, r[DateColumn])
      && o["DueDate"] == FormatDate(parse, r[DueColumn])
      && o["Amount"] == r[BalanceColumn] && o["Class"] == r[ClassColumn]
  {
    // the six keys differ in their first letter
    assert "Vendor"[0] == 'V' && "BillDate"[0] == 'B' && "DueDate"[0] == 'D';
    assert "Amount"[0] == 'A' && "RefNumber"[0] == 'R' && "Class"[0] == 'C';
  }

  /** The records for a run of rows, one each, in order. */
  function OutputRows(parse: DateParser, rows: seq<Row>): (o: seq<Row>)
    requires AllSourced(rows)
    ensures |o| == |rows|
    ensures forall k :: 0 <= k < |rows| ==> o[k] == OutputRow(parse, rows[k])
  {
    if rows == [] then []
    else
      assert rows[0] in rows && forall r :: r in rows[1..] ==> r in rows;
      [OutputRow(parse, rows[0])] + OutputRows(parse, rows[1..])
  }

  /** One more row in front adds its record in front. */
  lemma OutputRowsCons(parse: DateParser, x: Row, t: seq<Row>)
    requires HasSources(x) && AllSourced(t)
    ensures AllSourced([x] + t)
    ensures OutputRows(parse, [x] + t) == [OutputRow(parse, x)] + OutputRows(parse, t)
  {
    assert ([x] + t)[0] == x && ([x] + t)[1..] == t;
  }

  /** The records of the bills and of the credits of `rows` are, between them,
      the records of its rows with a non-zero balance. */
  predicate SidesAgree(parse: DateParser, rows: seq<Row>)
  {
    && AllSourced(Keep(rows, IsBill)) && AllSourced(Keep(rows, IsCredit)) && AllSourced(Keep(rows, IsNonZero))
    && multiset(OutputRows(parse, Keep(rows, IsBill))) + multiset(OutputRows(parse, Keep(rows, IsCredit)))
       == multiset(OutputRows(parse, Keep(rows, IsNonZero)))
  }

  /** Formatting the bills and the credits of a run of prepared rows yields, between
      them, exactly the records of its rows with a non-zero balance. */
  lemma {:induction false} OutputSides(parse: DateParser, rows: seq<Row>)
    requires forall r :: r in rows && IsNonZero(r) ==> HasSources(r)
    ensures SidesAgree(parse, rows)
  {
    if rows != [] {
      var x, t := rows[0], rows[1..];
      assert x in rows && forall r :: r in t ==> r in rows;
      assert rows == [x] + t;
      OutputSides(parse, t);
      SidesAgreeCons(parse, x, t);
    }
  }

  /** Putting one row in front of a run keeps the two sides in agreement. */
  lemma SidesAgreeCons(parse: DateParser, x: Row, t: seq<Row>)
    requires IsNonZero(x) ==> HasSources(x)
    requires SidesAgree(parse, t)
    ensures SidesAgree(parse, [x] + t)
  {
    var rows := [x] + t;
    assert rows[0] == x && rows[1..] == t;
    if !IsNonZero(x) {
      assert Keep(rows, IsBill) == Keep(t, IsBill) && Keep(rows, IsCredit) == Keep(t, IsCredit);
      assert Keep(rows, IsNonZero) == Keep(t, IsNonZero);
    } else if IsBill(x) {
      BillCons(parse, x, t);
    } else {
      CreditCons(parse, x, t);
    }
  }

  lemma BillCons(parse: DateParser, x: Row, t: seq<Row>)
    requires IsBill(x) && HasSources(x) && SidesAgree(parse, t)
    ensures SidesAgree(parse, [x] + t)
  {
    var rows := [x] + t;
    assert rows[0] == x && rows[1..] == t;
    assert !IsCredit(x) && IsNonZero(x);
    assert Keep(rows, IsBill) == [x] + Keep(t, IsBill) && Keep(rows, IsCredit) == Keep(t, IsCredit);
    assert Keep(rows, IsNonZero) == [x] + Keep(t, IsNonZero);
    OneMoreBill(parse, x, Keep(t, IsBill), Keep(t, IsCredit), Keep(t, IsNonZero));
  }

  lemma CreditCons(parse: DateParser, x: Row, t: seq<Row>)
    requires IsCredit(x) && HasSources(x) && SidesAgree(parse, t)
    ensures SidesAgree(parse, [x] + t)
  {
    var rows := [x] + t;
    assert rows[0] == x && rows[1..] == t;
    assert !IsBill(x) && IsNonZero(x);
    assert Keep(rows, IsBill) == Keep(t, IsBill) && Keep(rows, IsCredit) == [x] + Keep(t, IsCredit);
    assert Keep(rows, IsNonZero) == [x] + Keep(t, IsNonZero);
    OneMoreCredit(parse, x, Keep(t, IsBill), Keep(t, IsCredit), Keep(t, IsNonZero));
  }

  /** One more bill, and one more non-zero row, keep the two counts equal. */
  lemma OneMoreBill(parse: DateParser, x: Row, bills: seq<Row>, credits: seq<Row>, moved: seq<Row>)
    requires HasSources(x) && AllSourced(bills) && AllSourced(credits) && AllSourced(moved)
    requires multiset(OutputRows(parse, bills)) + multiset(OutputRows(parse, credits)) == multiset(OutputRows(parse, moved))
    ensures AllSourced([x] + bills) && AllSourced([x] + moved)
    ensures multiset(OutputRows(parse, [x] + bills)) + multiset(OutputRows(parse, credits))
            == multiset(OutputRows(parse, [x] + moved))
  {
    OutputRowsCons(parse, x, bills);
    OutputRowsCons(parse, x, moved);
  }
  /** One more credit, and one more non-zero row, keep the two counts equal. */
  lemma OneMoreCredit(parse: DateParser, x: Row, bills: seq<Row>, credits: seq<Row>, moved: seq<Row>)
    requires HasSources(x) && AllSourced(bills) && AllSourced(credits) && AllSourced(moved)
    requires multiset(OutputRows(parse, bills)) + multiset(OutputRows(parse, credits)) == multiset(OutputRows(parse, moved))
    ensures AllSourced([x] + credits) && AllSourced([x] + moved)
    ensures multiset(OutputRows(parse, bills)) + multiset(OutputRows(parse, [x] + credits))
            == multiset(OutputRows(parse, [x] + moved))
  {
    OutputRowsCons(parse, x, credits);
    OutputRowsCons(parse, x, moved);
  }

  /** The first of `wanted` that is not among `columns`. */
  function FirstMissing(columns: seq<string>, wanted: seq<string>): (m: Option<string>)
    ensures m.None? <==> forall c :: c in wanted ==> c in columns
    ensures m.Some? ==> m.value in wanted && m.value !in columns
  {
    if wanted == [] then None
    else if wanted[0] !in columns then Some(wanted[0])
    else FirstMissing(columns, wanted[1..])
  }

  /** `format_output`: rename, project and format. The projection fails when a
      column it names is absent; otherwise the result has exactly the output
      columns, one record per input row, in order. */
  function FormatOutput(d: Frame, parse: DateParser): (r: Result<Frame>)
    requires WellFormed(d)
    ensures r.Err? <==> exists c :: c in SourceColumns && c !in d.columns
    ensures r.Err? ==> r.error.MissingColumn? && r.error.name in SourceColumns && r.error.name !in d.columns
    ensures r.Ok? ==> WellFormed(r.value) && r.value.columns == OutputColumns
    ensures r.Ok? ==> |r.value.rows| == |d.rows|
    ensures r.Ok? ==> AllSourced(d.rows) && r.value.rows == OutputRows(parse, d.rows)
  {
    match FirstMissing(d.columns, SourceColumns)
    case Some(c) => Err(MissingColumn(c))
    case None =>
      assert AllSourced(d.rows);
      var rows := OutputRows(parse, d.rows);
      assert WellFormed(Frame(OutputColumns, rows)) by {
        forall row | row in rows ensures row.Keys == Names(OutputColumns) {
          var k :| 0 <= k < |rows| && rows[k] == row;
        }
      }
      Ok(Frame(OutputColumns, rows))
  }

  // ---------------------------------------------------------------------------
  // The whole extraction (app.py:21-77)

  /** What one submitted sheet yields. `Extracted` carries the bills batch and the
      credits batch; a batch with no rows is the one that is not appended. */
  datatype Outcome = Failed(error: Error) | NoneSelected | Extracted(bills: Frame, credits: Frame)

  /** `format_output` is only applied to a non-empty side. */
  function BatchOf(d: Frame, parse: DateParser): (r: Result<Frame>)
    requires WellFormed(d)
    ensures r.Err? <==> |d.rows| > 0 && exists c :: c in SourceColumns && c !in d.columns
    ensures r.Ok? ==> WellFormed(r.value) && r.value.columns == OutputColumns && |r.value.rows| == |d.rows|
    ensures r.Ok? ==> AllSourced(d.rows) && r.value.rows == OutputRows(parse, d.rows)
  {
    if |d.rows| == 0 then Ok(Frame(OutputColumns, [])) else FormatOutput(d, parse)
  }

  /** Lines 69-77 without the appends: the bills side is formatted first, then the
      credits side; the first failure is the outcome. */
  function FormatSplit(s: Split, parse: DateParser): (r: Outcome)
    requires WellFormed(s.bills) && WellFormed(s.credits)
    ensures !r.NoneSelected?
    ensures r.Failed? ==> r.error.MissingColumn? && r.error.name in SourceColumns
    ensures r.Extracted? ==> |r.bills.rows| == |s.bills.rows| && |r.credits.rows| == |s.credits.rows|
    ensures r.Extracted? ==> WellFormed(r.bills) && r.bills.columns == OutputColumns
                             && WellFormed(r.credits) && r.credits.columns == OutputColumns
    ensures r.Extracted? ==> && AllSourced(s.bills.rows) && r.bills.rows == OutputRows(parse, s.bills.rows)
                             && AllSourced(s.credits.rows) && r.credits.rows == OutputRows(parse, s.credits.rows)
  {
    match BatchOf(s.bills, parse)
    case Err(e) => Failed(e)
    case Ok(b) =>
      match BatchOf(s.credits, parse)
      case Err(e) => Failed(e)
      case Ok(c) => Extracted(b, c)
  }

  /** Where lines 21-52 leave one sheet: either an outcome is already decided (an
      error, or no selected row), or the sheet is split into bills and credits. */
  datatype Stage = Decided(outcome: Outcome) | Divided(sides: Split)

  /** Lines 21-52: select, prepare and split one sheet. */
  function SplitSheet(sheet: seq<seq<Cell>>, classLabel: string, parse: DateParser): (r: Stage)
    ensures r.Decided? ==> !r.outcome.Extracted?
    ensures r.Divided? ==>
      WellFormed(r.sides.bills) && WellFormed(r.sides.credits) && r.sides.bills.columns == r.sides.credits.columns
  {
    match SelectedRows(sheet, parse)
    case Err(e) => Decided(Failed(e))
    case Ok(sel) =>
      if |sel.rows| == 0 then Decided(NoneSelected)
      else
        match Prepare(sel, classLabel)
        case Err(e) => Decided(Failed(e))
        case Ok(g) => Divided(SplitBySign(g))
  }

  /** Which stage a sheet reaches: it is split exactly when some rows are selected
      and their balances all read; it selects nothing exactly when the selection
      succeeds empty; otherwise it fails with the error of the selection or, after
      it, of the balance reading. */
  lemma SplitSheetCases(sheet: seq<seq<Cell>>, classLabel: string, parse: DateParser)
    ensures var r := SplitSheet(sheet, classLabel, parse);
      && (r == Decided(NoneSelected) <==>
            SelectedRows(sheet, parse).Ok? && |SelectedRows(sheet, parse).value.rows| == 0)
      && (r.Divided? <==> && SelectedRows(sheet, parse).Ok? && |SelectedRows(sheet, parse).value.rows| > 0
                          && Prepare(SelectedRows(sheet, parse).value, classLabel).Ok?)
      && (r.Decided? && r.outcome.Failed? ==>
            || (SelectedRows(sheet, parse).Err? && r.outcome.error == SelectedRows(sheet, parse).error)
            || (&& SelectedRows(sheet, parse).Ok?
                && Prepare(SelectedRows(sheet, parse).value, classLabel).Err?
                && r.outcome.error == Prepare(SelectedRows(sheet, parse).value, classLabel).error))
  {
    if SelectedRows(sheet, parse).Ok? && |SelectedRows(sheet, parse).value.rows| > 0 {
      var sel := SelectedRows(sheet, parse).value;
      assert SplitSheet(sheet, classLabel, parse).Divided? == Prepare(sel, classLabel).Ok?;
    }
  }

  /** The outcome of the whole extraction (lines 21-77 without the appends). */
  function Extract(sheet: seq<seq<Cell>>, classLabel: string, parse: DateParser): (r: Outcome)
    ensures r == NoneSelected <==>
              SelectedRows(sheet, parse).Ok? && |SelectedRows(sheet, parse).value.rows| == 0
    ensures r.Extracted? ==> WellFormed(r.bills) && r.bills.columns == OutputColumns
                             && WellFormed(r.credits) && r.credits.columns == OutputColumns
  {
    match SplitSheet(sheet, classLabel, parse)
    case Decided(o) => o
    case Divided(s) => FormatSplit(s, parse)
  }

  /** An exported record of one sheet: exactly the output columns, the sheet's
      class and a bill date written as MM/DD/YYYY. */
  predicate IsRecordOf(r: Row, classLabel: string)
  {
    && r.Keys == Names(OutputColumns)
    && r["Class"] == Str(classLabel)
    && r["BillDate"].Str? && ParseMDY(r["BillDate"].text).Some?
  }

  predicate PositiveAmount(r: Row)
  {
    "Amount" in r && r["Amount"].Num? && r["Amount"].x > 0.0
  }

  predicate NegativeAmount(r: Row)
  {
    "Amount" in r && r["Amount"].Num? && r["Amount"].x < 0.0
  }

  /** Every prepared row carries the class and a date that parses. */
  lemma PreparedRowFacts(sel: Frame, g: Frame, classLabel: string, parse: DateParser, r: Row)
    requires WellFormed(sel) && forall row :: row in sel.rows ==> IsDated(parse, row)
    requires Prepare(sel, classLabel) == Ok(g) && r in g.rows
    ensures ClassColumn in r && r[ClassColumn] == Str(classLabel)
    ensures DateColumn in r && parse(r[DateColumn]).Some?
  {
    var k :| 0 <= k < |g.rows| && g.rows[k] == r;
    assert sel.rows[k] in sel.rows;
    assert DateColumn in sel.rows[k];
    assert DateColumn != AmountColumn && DateColumn != BalanceColumn && DateColumn != ClassColumn;
    assert r[DateColumn] == sel.rows[k][DateColumn];
  }

  /** A row ready for the export: it has every source column, the sheet's class
      and a date that parses. */
  predicate ReadyRow(r: Row, classLabel: string, parse: DateParser)
  {
    && HasSources(r)
    && r[ClassColumn] == Str(classLabel)
    && parse(r[DateColumn]).Some?
  }

  /** The record written for a ready row belongs to this sheet, and its amount is
      the row's open balance. */
  lemma RecordOfReady(src: Row, classLabel: string, parse: DateParser)
    requires ReadyRow(src, classLabel, parse)
    ensures IsRecordOf(OutputRow(parse, src), classLabel)
    ensures OutputRow(parse, src)["Amount"] == src[BalanceColumn]
  {
    OutputRowCells(parse, src);
    var o := OutputRow(parse, src);
    var bd := FormatDate(parse, src[DateColumn]);
    assert o["BillDate"] == bd;
    assert bd.Str? && ParseMDY(bd.text).Some?;
    assert o["Class"] == Str(classLabel);
    assert o["Amount"] == src[BalanceColumn];
  }

  /** The records of ready rows: each belongs to this sheet, and the k-th amount is
      the balance of the k-th row. */
  lemma FormattedRows(rows: seq<Row>, classLabel: string, parse: DateParser)
    requires forall r :: r in rows ==> ReadyRow(r, classLabel, parse)
    ensures AllSourced(rows)
    ensures forall k :: 0 <= k < |rows| ==>
      && IsRecordOf(OutputRows(parse, rows)[k], classLabel)
      && HasSources(rows[k]) && OutputRows(parse, rows)[k]["Amount"] == rows[k][BalanceColumn]
  {
    var o := OutputRows(parse, rows);
    forall k | 0 <= k < |rows|
      ensures IsRecordOf(o[k], classLabel)
      ensures HasSources(rows[k]) && o[k]["Amount"] == rows[k][BalanceColumn]
    {
      assert rows[k] in rows;
      assert o[k] == OutputRow(parse, rows[k]);
      RecordOfReady(rows[k], classLabel, parse);
    }
  }

  /** A stamped row: it carries the sheet's class and a date that parses. */
  predicate Stamped(r: Row, classLabel: string, parse: DateParser)
  {
    ClassColumn in r && r[ClassColumn] == Str(classLabel) && DateColumn in r && parse(r[DateColumn]).Some?
  }

  /** The two sides of a split sheet hold stamped rows of the right sign. */
  lemma DividedRows(sheet: seq<seq<Cell>>, classLabel: string, parse: DateParser)
    requires SplitSheet(sheet, classLabel, parse).Divided?
    ensures var s := SplitSheet(sheet, classLabel, parse).sides;
      && (forall r :: r in s.bills.rows ==> Stamped(r, classLabel, parse) && IsBill(r))
      && (forall r :: r in s.credits.rows ==> Stamped(r, classLabel, parse) && IsCredit(r))
  {
    var sel := SelectedRows(sheet, parse).value;
    var g := Prepare(sel, classLabel).value;
    var sp := SplitBySign(g);
    assert SplitSheet(sheet, classLabel, parse).sides == sp;
    forall r | r in g.rows ensures Stamped(r, classLabel, parse) {
      PreparedRowFacts(sel, g, classLabel, parse, r);
    }
  }

  /** The records of stamped rows of one sign belong to the sheet and carry an
      amount of that sign. */
  lemma SignedRecords(rows: seq<Row>, classLabel: string, parse: DateParser, positive: bool)
    requires AllSourced(rows)
    requires forall r :: r in rows ==> Stamped(r, classLabel, parse) && if positive then IsBill(r) else IsCredit(r)
    ensures forall r :: r in OutputRows(parse, rows) ==>
              IsRecordOf(r, classLabel) && if positive then PositiveAmount(r) else NegativeAmount(r)
  {
    var o := OutputRows(parse, rows);
    FormattedRows(rows, classLabel, parse);
    forall r | r in o ensures IsRecordOf(r, classLabel) && if positive then PositiveAmount(r) else NegativeAmount(r) {
      var k :| 0 <= k < |o| && o[k] == r;
      assert rows[k] in rows;
    }
  }

  /** Formatting a split whose rows are stamped: every bill record belongs to the
      sheet and is positive, every credit record belongs to the sheet and is negative. */
  lemma SplitRecords(sp: Split, classLabel: string, parse: DateParser)
    requires WellFormed(sp.bills) && WellFormed(sp.credits)
    requires forall r :: r in sp.bills.rows ==> Stamped(r, classLabel, parse) && IsBill(r)
    requires forall r :: r in sp.credits.rows ==> Stamped(r, classLabel, parse) && IsCredit(r)
    requires FormatSplit(sp, parse).Extracted?
    ensures var o := FormatSplit(sp, parse);
      && (forall r :: r in o.bills.rows ==> IsRecordOf(r, classLabel) && PositiveAmount(r))
      && (forall r :: r in o.credits.rows ==> IsRecordOf(r, classLabel) && NegativeAmount(r))
  {
    var o := FormatSplit(sp, parse);
    assert o.bills.rows == OutputRows(parse, sp.bills.rows);
    assert o.credits.rows == OutputRows(parse, sp.credits.rows);
    SignedRecords(sp.bills.rows, classLabel, parse, true);
    SignedRecords(sp.credits.rows, classLabel, parse, false);
  }

  /** What a successful extraction hands to the session: two batches with exactly
      the output columns, every record stamped with the sheet's class and a
      formatted bill date, every bill positive and every credit negative. */
  lemma ExtractedBatches(sheet: seq<seq<Cell>>, classLabel: string, parse: DateParser)
    requires Extract(sheet, classLabel, parse).Extracted?
    ensures var o := Extract(sheet, classLabel, parse);
      && WellFormed(o.bills) && o.bills.columns == OutputColumns
      && WellFormed(o.credits) && o.credits.columns == OutputColumns
      && (forall r :: r in o.bills.rows ==> IsRecordOf(r, classLabel) && PositiveAmount(r))
      && (forall r :: r in o.credits.rows ==> IsRecordOf(r, classLabel) && NegativeAmount(r))
  {
    var sp := SplitSheet(sheet, classLabel, parse).sides;
    assert Extract(sheet, classLabel, parse) == FormatSplit(sp, parse);
    DividedRows(sheet, classLabel, parse);
    SplitRecords(sp, classLabel, parse);
  }

  /** The end-to-end content of a successful extraction: the bills batch holds the
      records of the prepared rows with a positive balance, the credits batch those
      with a negative balance, each in sheet order; between them they hold every
      record of a row with a non-zero balance, each exactly once. */
  lemma ExtractedRows(sheet: seq<seq<Cell>>, classLabel: string, parse: DateParser)
    requires Extract(sheet, classLabel, parse).Extracted?
    ensures SelectedRows(sheet, parse).Ok? && Prepare(SelectedRows(sheet, parse).value, classLabel).Ok?
    ensures var g := Prepare(SelectedRows(sheet, parse).value, classLabel).value;
            var o := Extract(sheet, classLabel, parse);
      && AllSourced(Keep(g.rows, IsBill)) && o.bills.rows == OutputRows(parse, Keep(g.rows, IsBill))
      && AllSourced(Keep(g.rows, IsCredit)) && o.credits.rows == OutputRows(parse, Keep(g.rows, IsCredit))
      && AllSourced(Keep(g.rows, IsNonZero))
      && multiset(o.bills.rows) + multiset(o.credits.rows) == multiset(OutputRows(parse, Keep(g.rows, IsNonZero)))
  {
    SplitSheetCases(sheet, classLabel, parse);
    var g := Prepare(SelectedRows(sheet, parse).value, classLabel).value;
    var sp := SplitSheet(sheet, classLabel, parse).sides;
    assert sp == SplitBySign(g);
    assert sp.bills.rows == Keep(g.rows, IsBill) && sp.credits.rows == Keep(g.rows, IsCredit);
    assert Extract(sheet, classLabel, parse) == FormatSplit(sp, parse);
    forall r | r in g.rows && IsNonZero(r) ensures HasSources(r) {
      if IsBill(r) {
        assert r in sp.bills.rows;
      } else {
        assert r in sp.credits.rows;
      }
    }
    OutputSides(parse, g.rows);
  }

  /** When a sheet is extracted: it selects some rows, their balances all read, and
      either no selected row has a non-zero balance or every projected column is
      present. */
  lemma ExtractedIff(sheet: seq<seq<Cell>>, classLabel: string, parse: DateParser)
    ensures Extract(sheet, classLabel, parse).Extracted? <==>
      && SelectedRows(sheet, parse).Ok? && |SelectedRows(sheet, parse).value.rows| > 0
      && Prepare(SelectedRows(sheet, parse).value, classLabel).Ok?
      && var g := Prepare(SelectedRows(sheet, parse).value, classLabel).value;
         Keep(g.rows, IsNonZero) == [] || forall c :: c in SourceColumns ==> c in g.columns
  {
    SplitSheetCases(sheet, classLabel, parse);
    if SplitSheet(sheet, classLabel, parse).Divided? {
      var g := Prepare(SelectedRows(sheet, parse).value, classLabel).value;
      assert SplitSheet(sheet, classLabel, parse).sides == SplitBySign(g);
      SplitFormats(g, parse);
    }
  }

  /** A prepared frame formats unless some row has a non-zero balance and a
      projected column is missing. */
  lemma SplitFormats(g: Frame, parse: DateParser)
    requires WellFormed(g)
    ensures FormatSplit(SplitBySign(g), parse).Extracted? <==>
              Keep(g.rows, IsNonZero) == [] || forall c :: c in SourceColumns ==> c in g.columns
  {
    var sp := SplitBySign(g);
    SplitPartition(g);
    assert |sp.bills.rows| + |sp.credits.rows| == |Keep(g.rows, IsNonZero)| by {
      assert |multiset(sp.bills.rows) + multiset(sp.credits.rows)| == |multiset(Keep(g.rows, IsNonZero))|;
    }
  }

  /** A selected row whose open balance cannot be read as a number makes the whole
      sheet fail, so nothing of it reaches the session. */
  lemma UnreadableBalanceFails(sheet: seq<seq<Cell>>, classLabel: string, parse: DateParser, k: nat)
    requires SelectedRows(sheet, parse).Ok?
    requires var sel := SelectedRows(sheet, parse).value;
      && k < |sel.rows| && BalanceColumn in sel.columns && BalanceOf(sel.rows[k][BalanceColumn]).Err?
    ensures Extract(sheet, classLabel, parse).Failed?
  {
    var sel := SelectedRows(sheet, parse).value;
    assert Prepare(sel, classLabel).Err?;
  }
}
