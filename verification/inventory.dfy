/** The spreadsheet side of the inventory reconciliation: locating the
    required columns in the header row and extracting the rows that pass the
    status, serial and name rules. The input is the cell grid as it stands
    after the first two sheet rows have been dropped, so row 0 is the header. */
module Inventory {
  import opened Wrappers
  import opened Text
  import Seqs

  /** One decoded spreadsheet cell: a string, some other value (a number or
      a boolean, with its `String(v)` rendering and its JavaScript
      truthiness), or nothing at all (`undefined`, past the end of a row). */
  datatype Cell = Str(s: string) | Other(shown: string, truthy: bool) | Empty

  /** JavaScript truthiness of a cell. */
  predicate Truthy(c: Cell)
  {
    match c
    case Str(s) => s != []
    case Other(_, t) => t
    case Empty => false
  }

  /** `String(v)` of a cell. */
  function Stringify(c: Cell): string
  {
    match c
    case Str(s) => s
    case Other(shown, _) => shown
    case Empty => "undefined"
  }

  /** The cell at column `i`, or `Empty` past the end of the row. */
  function CellAt(row: seq<Cell>, i: nat): Cell
  {
    if i < |row| then row[i] else Empty
  }

  /** The equipment states a spreadsheet row may carry. */
  datatype Status = Available | AwaitingDisposal | Reserved | Preparacion

  /** The permitted states, in their fixed order. */
  const PermittedStatuses: seq<Status> := [Available, AwaitingDisposal, Reserved, Preparacion]

  /** The text of each state as it appears in the sheet. */
  function StatusName(st: Status): string
  {
    match st
    case Available => "Available"
    case AwaitingDisposal => "Awaiting Disposal"
    case Reserved => "Reserved"
    case Preparacion => "Preparaci\U{00F3}n"
  }

  /** `esEstadoPermitido`: the state whose text is exactly `s`, if any. */
  function ParseStatus(s: string): (r: Option<Status>)
    ensures r.Some? ==> StatusName(r.value) == s
  {
    if s == "Available" then Some(Available)
    else if s == "Awaiting Disposal" then Some(AwaitingDisposal)
    else if s == "Reserved" then Some(Reserved)
    else if s == "Preparaci\U{00F3}n" then Some(Preparacion)
    else None
  }

  /** Parsing a state's own text gives that state back, so a string is a
      permitted state exactly when it is the text of one. */
  lemma ParseStatusName(st: Status, s: string)
    ensures ParseStatus(StatusName(st)) == Some(st)
    ensures ParseStatus(s).Some? <==> exists i :: 0 <= i < |PermittedStatuses| && StatusName(PermittedStatuses[i]) == s
  {
    if ParseStatus(s).Some? {
      var st' := ParseStatus(s).value;
      assert st' == PermittedStatuses[if st'.Available? then 0 else if st'.AwaitingDisposal? then 1 else if st'.Reserved? then 2 else 3];
    }
  }

  /** The headers of the three columns the extraction reads. */
  const ColumnName := "nombre"
  const ColumnSerial := "N\U{00FA}mero de serie"
  const ColumnStatus := "Estado"

  /** A header cell names the column whose lower-cased name is `key`: a
      non-empty string whose trimmed, lower-cased text is `key`. */
  predicate HeaderMatches(h: Cell, key: string)
  {
    h.Str? && h.s != [] && Lower(Trim(h.s)) == key
  }

  /** The `findIndex` callback of `encontrarIndiceColumna`. */
  function Matcher(key: string): Cell -> bool
  {
    h => HeaderMatches(h, key)
  }

  /** `encontrarIndiceColumna`: the index of the first header that names
      `column`, or `None` where the source answers -1. */
  function FindColumn(headers: seq<Cell>, column: string): Option<nat>
  {
    Seqs.FindIndex(headers, Matcher(Lower(column)), 0)
  }

  /** The column found is the first header naming it, and there is none
      exactly when no header names it. */
  lemma FindColumnFirst(headers: seq<Cell>, column: string)
    ensures FindColumn(headers, column).Some? ==>
      && FindColumn(headers, column).value < |headers|
      && HeaderMatches(headers[FindColumn(headers, column).value], Lower(column))
      && forall i :: 0 <= i < FindColumn(headers, column).value ==> !HeaderMatches(headers[i], Lower(column))
    ensures FindColumn(headers, column).None? <==>
      forall i :: 0 <= i < |headers| ==> !HeaderMatches(headers[i], Lower(column))
  {
    Seqs.FindIndexFirst(headers, Matcher(Lower(column)), 0);
  }

  /** A non-string header is skipped, and surrounding whitespace and
      letter case do not matter. */
  lemma FindStatusColumnExample()
    ensures FindColumn([Other("7", true), Str(" ESTADO ")], ColumnStatus) == Some(1)
  {
    assert TrimStart(" ESTADO ") == "ESTADO ";
    assert TrimEnd("ESTADO ") == "ESTADO" by {
      assert "ESTADO "[..6] == "ESTADO";
    }
    assert Lower("ESTADO") == "estado";
    assert Lower(ColumnStatus) == "estado";
  }

  /** Accented capitals match their lower-case forms. */
  lemma FindSerialColumnExample()
    ensures FindColumn([Str("N\U{00DA}MERO DE SERIE")], ColumnSerial) == Some(0)
  {
    var h := "N\U{00DA}MERO DE SERIE";
    assert Trim(h) == h;
    assert Lower(h) == Lower(ColumnSerial);
  }

  /** A sheet without a name header has no name column. */
  lemma FindNameColumnExample()
    ensures FindColumn([Str("Estado")], ColumnName) == None
  {
    assert Trim("Estado") == "Estado";
    assert Lower("Estado")[0] == 'e';
    assert Lower(ColumnName)[0] == 'n';
  }

  /** The column positions the row rules read; the name column is optional. */
  datatype Columns = Columns(serial: nat, status: nat, name: Option<nat>)

  /** Why the extraction as a whole fails. */
  datatype ExtractError = MissingColumn(column: string)

  /** One validated spreadsheet record. */
  datatype ExcelRow = ExcelRow(serial: string, status: Status)

  /** Locates the three columns in the header row. A missing status column
      is reported before a missing serial column; a missing name column only
      switches the name rules off. */
  function ResolveColumns(header: seq<Cell>): (r: Result<Columns, ExtractError>)
    ensures FindColumn(header, ColumnStatus).None? ==> r == Failure(MissingColumn(ColumnStatus))
    ensures FindColumn(header, ColumnStatus).Some? && FindColumn(header, ColumnSerial).None? ==>
      r == Failure(MissingColumn(ColumnSerial))
    ensures r.Success? ==>
      && Some(r.value.status) == FindColumn(header, ColumnStatus)
      && Some(r.value.serial) == FindColumn(header, ColumnSerial)
      && r.value.name == FindColumn(header, ColumnName)
  {
    var serial := FindColumn(header, ColumnSerial);
    var name := FindColumn(header, ColumnName);
    var status := FindColumn(header, ColumnStatus);
    if status.None? then Failure(MissingColumn(ColumnStatus))
    else if serial.None? then Failure(MissingColumn(ColumnSerial))
    else Success(Columns(serial.value, status.value, name))
  }

  /** The name prefixes a row may carry. */
  const PermittedPrefixes: seq<string> := ["01-", "02-"]

  /** `tienePrefijoPermitido`: the trimmed name starts with a permitted prefix. */
  predicate HasPermittedPrefix(name: string)
  {
    name != [] && (StartsWith(Trim(name), PermittedPrefixes[0]) || StartsWith(Trim(name), PermittedPrefixes[1]))
  }

  /** `nombreTerminaConSerial`: both are non-empty and the trimmed name ends
      with the trimmed serial. */
  predicate NameEndsWithSerial(name: string, serial: string)
  {
    name != [] && serial != [] && EndsWith(Trim(name), Trim(serial))
  }

  /** Why a single row is left out. */
  datatype Exclusion =
    | InvalidStatus
    | InvalidSerial
    | ForbiddenPrefix(name: string)
    | NameSerialMismatch(name: string, serial: string)

  /** The fate of one data row. */
  datatype Verdict = Accept(row: ExcelRow) | Exclude(reason: Exclusion)

  /** The status cell holds a permitted state (after trimming). */
  predicate StatusCellValid(c: Cell)
  {
    c.Str? && c.s != [] && ParseStatus(Trim(c.s)).Some?
  }

  /** The serial cell is a string that is not blank. */
  predicate SerialCellValid(c: Cell)
  {
    c.Str? && c.s != [] && !Blank(c.s)
  }

  /** The rules a data row must satisfy to be emitted as `out`, stated on the
      cells themselves: the status cell is a string whose trimmed text is the
      name of `out.status`; the serial cell is a string whose trimmed text is
      the non-empty `out.serial`; and, when the sheet has a name column and
      the row's name is truthy and not blank, the trimmed name starts with
      "01-" or "02-" and ends with the serial. */
  ghost predicate SatisfiesRules(row: seq<Cell>, cols: Columns, out: ExcelRow)
  {
    var st := CellAt(row, cols.status);
    var se := CellAt(row, cols.serial);
    && st.Str? && StatusName(out.status) == Trim(st.s)
    && se.Str? && out.serial == Trim(se.s) && out.serial != []
    && (cols.name.Some? ==>
          var n := CellAt(row, cols.name.value);
          var t := Trim(Stringify(n));
          Truthy(n) && t != [] ==>
            && (StartsWith(t, "01-") || StartsWith(t, "02-"))
            && EndsWith(t, out.serial))
  }

  /** One iteration of the row loop of `extraerFilasExcel`. A row is
      accepted exactly when it satisfies the rules, and then as the only
      record they allow; an invalid status excludes a row whatever its other
      cells hold. */
  function ClassifyRow(row: seq<Cell>, cols: Columns): (v: Verdict)
    ensures !StatusCellValid(CellAt(row, cols.status)) ==> v == Exclude(InvalidStatus)
    ensures StatusCellValid(CellAt(row, cols.status)) && !SerialCellValid(CellAt(row, cols.serial)) ==>
      v == Exclude(InvalidSerial)
  {
    var estado := CellAt(row, cols.status);
    var serie := CellAt(row, cols.serial);
    if !StatusCellValid(estado) then Exclude(InvalidStatus)
    else if !SerialCellValid(serie) then Exclude(InvalidSerial)
    else
      var serial := Trim(serie.s);
      var status := ParseStatus(Trim(estado.s)).value;
      if cols.name.Some? && Truthy(CellAt(row, cols.name.value)) then
        var n := Trim(Stringify(CellAt(row, cols.name.value)));
        if n != [] && !HasPermittedPrefix(n) then Exclude(ForbiddenPrefix(n))
        else if n != [] && !NameEndsWithSerial(n, serial) then Exclude(NameSerialMismatch(n, serial))
        else Accept(ExcelRow(serial, status))
      else Accept(ExcelRow(serial, status))
  }

  /** The verdicts on a sequence of data rows. */
  function Verdicts(rows: seq<seq<Cell>>, cols: Columns): (r: seq<Verdict>)
    ensures |r| == |rows|
    ensures forall i :: 0 <= i < |rows| ==> r[i] == ClassifyRow(rows[i], cols)
  {
    seq(|rows|, i requires 0 <= i < |rows| => ClassifyRow(rows[i], cols))
  }

  /** An accepting verdict. */
  predicate IsAccept(v: Verdict)
  {
    v.Accept?
  }

  /** The records carried by accepting verdicts. */
  function Records(vs: seq<Verdict>): (r: seq<ExcelRow>)
    requires forall k :: 0 <= k < |vs| ==> vs[k].Accept?
    ensures |r| == |vs|
    ensures forall k :: 0 <= k < |vs| ==> r[k] == vs[k].row
  {
    seq(|vs|, k requires 0 <= k < |vs| => vs[k].row)
  }

  /** The records of the accepted rows, in row order. */
  function AcceptedRows(rows: seq<seq<Cell>>, cols: Columns): seq<ExcelRow>
  {
    Seqs.FilterSatisfies(Verdicts(rows, cols), IsAccept);
    Records(Seqs.Filter(Verdicts(rows, cols), IsAccept))
  }

  /** `AcceptedRows` emits exactly the accepted rows, in order: the k-th
      record is the one accepted at the k-th accepting position. */
  lemma AcceptedRowsSelection(rows: seq<seq<Cell>>, cols: Columns)
    ensures var out := AcceptedRows(rows, cols);
            var pos := Seqs.Positions(Verdicts(rows, cols), IsAccept);
            && |pos| == |out|
            && (forall k :: 0 <= k < |pos| ==> pos[k] < |rows| && ClassifyRow(rows[pos[k]], cols) == Accept(out[k]))
            && (forall k, l :: 0 <= k < l < |pos| ==> pos[k] < pos[l])
            && (forall i :: 0 <= i < |rows| && ClassifyRow(rows[i], cols).Accept? ==> i in pos)
  {
    var vs := Verdicts(rows, cols);
    Seqs.FilterIsOrderedSelection(vs, IsAccept);
    forall i | 0 <= i < |rows| && ClassifyRow(rows[i], cols).Accept?
      ensures i in Seqs.Positions(vs, IsAccept)
    {
      assert IsAccept(vs[i]);
    }
  }

  /** Every accepted record has a non-empty, trimmed serial, and there are
      no more records than rows. */
  lemma AcceptedRowsShape(rows: seq<seq<Cell>>, cols: Columns)
    ensures |AcceptedRows(rows, cols)| <= |rows|
    ensures forall k :: 0 <= k < |AcceptedRows(rows, cols)| ==>
      AcceptedRows(rows, cols)[k].serial != [] && Trimmed(AcceptedRows(rows, cols)[k].serial)
  {
    var out := AcceptedRows(rows, cols);
    AcceptedRowsSelection(rows, cols);
    var pos := Seqs.Positions(Verdicts(rows, cols), IsAccept);
    forall k | 0 <= k < |out|
      ensures out[k].serial != [] && Trimmed(out[k].serial)
    {
      var row := rows[pos[k]];
      assert ClassifyRow(row, cols) == Accept(out[k]);
      AcceptMeansRules(row, cols);
      TrimShape(CellAt(row, cols.serial).s);
    }
  }

  /** `extraerFilasExcel` on the sliced grid. An empty grid gives no rows;
      otherwise the header is resolved first (failing on a missing status or
      serial column) and every later row is classified. */
  function ExtractRows(grid: seq<seq<Cell>>): (r: Result<seq<ExcelRow>, ExtractError>)
    ensures grid == [] ==> r == Success([])
    ensures grid != [] ==> (r.Failure? <==> ResolveColumns(grid[0]).Failure?)
    ensures grid != [] && r.Failure? ==> r.error == ResolveColumns(grid[0]).error
    ensures r.Success? && grid != [] ==> |r.value| <= |grid| - 1
    ensures r.Success? ==> forall k :: 0 <= k < |r.value| ==> r.value[k].serial != [] && Trimmed(r.value[k].serial)
  {
    if grid == [] then Success([])
    else
      match ResolveColumns(grid[0])
      case Failure(e) => Failure(e)
      case Success(cols) =>
        AcceptedRowsShape(grid[1..], cols);
        Success(AcceptedRows(grid[1..], cols))
  }

  // ---------------------------------------------------------------------
  // Properties of the extraction
  // ---------------------------------------------------------------------

  /** The sheet indices the extracted records come from. */
  function ExtractedFrom(grid: seq<seq<Cell>>, cols: Columns): seq<nat>
    requires grid != []
  {
    Seqs.Shift(Seqs.Positions(Verdicts(grid[1..], cols), IsAccept))
  }

  /** Once the header resolves, the extraction is the accepted data rows. */
  lemma ExtractRowsValue(grid: seq<seq<Cell>>, cols: Columns)
    requires grid != [] && ResolveColumns(grid[0]) == Success(cols)
    ensures ExtractRows(grid) == Success(AcceptedRows(grid[1..], cols))
  {
  }

  /** The extraction emits only accepted data rows, never the header: the
      k-th record is the one accepted at sheet row `ExtractedFrom(..)[k]`. */
  lemma ExtractedRowsAreAccepted(grid: seq<seq<Cell>>, cols: Columns, out: seq<ExcelRow>, idx: seq<nat>)
    requires grid != [] && ResolveColumns(grid[0]) == Success(cols)
    requires ExtractRows(grid) == Success(out)
    requires idx == ExtractedFrom(grid, cols)
    ensures |idx| == |out|
    ensures forall k :: 0 <= k < |out| ==>
      1 <= idx[k] < |grid| && ClassifyRow(grid[idx[k]], cols) == Accept(out[k])
  {
    var rows := grid[1..];
    ExtractRowsValue(grid, cols);
    AcceptedRowsSelection(rows, cols);
    var pos := Seqs.Positions(Verdicts(rows, cols), IsAccept);
    forall k | 0 <= k < |out|
      ensures 1 <= idx[k] < |grid| && ClassifyRow(grid[idx[k]], cols) == Accept(out[k])
    {
      assert grid[idx[k]] == rows[pos[k]];
    }
  }

  /** The extraction keeps the sheet order of the rows it emits. */
  lemma ExtractionKeepsOrder(grid: seq<seq<Cell>>, cols: Columns)
    requires grid != []
    ensures forall k, l :: 0 <= k < l < |ExtractedFrom(grid, cols)| ==>
      ExtractedFrom(grid, cols)[k] < ExtractedFrom(grid, cols)[l]
  {
    AcceptedRowsSelection(grid[1..], cols);
  }

  /** Every accepted data row is emitted. */
  lemma ExtractionIsComplete(grid: seq<seq<Cell>>, cols: Columns)
    requires grid != []
    ensures forall i :: 1 <= i < |grid| && ClassifyRow(grid[i], cols).Accept? ==> i in ExtractedFrom(grid, cols)
  {
    var rows := grid[1..];
    AcceptedRowsSelection(rows, cols);
    var pos := Seqs.Positions(Verdicts(rows, cols), IsAccept);
    var idx := ExtractedFrom(grid, cols);
    forall i | 1 <= i < |grid| && ClassifyRow(grid[i], cols).Accept?
      ensures i in idx
    {
      assert rows[i - 1] == grid[i];
      var k :| 0 <= k < |pos| && pos[k] == i - 1;
      assert idx[k] == i;
    }
  }

  /** Every extracted record satisfies the rules on the row it comes from:
      its serial was a string cell (a numeric serial is never emitted), its
      status is permitted, and a present, non-blank name carries a permitted
      prefix and ends with the serial. */
  lemma ExtractedRowsObeyRules(grid: seq<seq<Cell>>, cols: Columns, out: seq<ExcelRow>, idx: seq<nat>, k: nat)
    requires grid != [] && ResolveColumns(grid[0]) == Success(cols)
    requires ExtractRows(grid) == Success(out)
    requires idx == ExtractedFrom(grid, cols)
    requires k < |out|
    ensures k < |idx| && 1 <= idx[k] < |grid| && SatisfiesRules(grid[idx[k]], cols, out[k])
  {
    ExtractedRowsAreAccepted(grid, cols, out, idx);
    AcceptMeansRules(grid[idx[k]], cols);
  }

  /** An accepted row satisfies the rules for the record it is accepted as. */
  lemma AcceptMeansRules(row: seq<Cell>, cols: Columns)
    requires ClassifyRow(row, cols).Accept?
    ensures SatisfiesRules(row, cols, ClassifyRow(row, cols).row)
  {
    var st := CellAt(row, cols.status);
    var se := CellAt(row, cols.serial);
    TrimIdempotent(se.s);
    if cols.name.Some? && Truthy(CellAt(row, cols.name.value)) {
      TrimIdempotent(Stringify(CellAt(row, cols.name.value)));
    }
  }

  /** A row that satisfies the rules for `out` is accepted, as `out`. */
  lemma RulesMeanAccept(row: seq<Cell>, cols: Columns, out: ExcelRow)
    requires SatisfiesRules(row, cols, out)
    ensures ClassifyRow(row, cols) == Accept(out)
  {
    var st := CellAt(row, cols.status);
    var se := CellAt(row, cols.serial);
    ParseStatusName(out.status, Trim(st.s));
    assert StatusCellValid(st);
    assert SerialCellValid(se);
    TrimIdempotent(se.s);
    if cols.name.Some? && Truthy(CellAt(row, cols.name.value)) {
      TrimIdempotent(Stringify(CellAt(row, cols.name.value)));
    }
  }

  /** Without a name column, a row is accepted exactly when its status and
      serial cells are valid. */
  lemma NoNameColumnNoNameRules(row: seq<Cell>, cols: Columns)
    requires cols.name.None?
    ensures ClassifyRow(row, cols).Accept? <==>
      StatusCellValid(CellAt(row, cols.status)) && SerialCellValid(CellAt(row, cols.serial))
  {
  }

  /** A blank or falsy name imposes no condition on the row. */
  lemma BlankNameNoNameRules(row: seq<Cell>, cols: Columns)
    requires cols.name.Some?
    requires !Truthy(CellAt(row, cols.name.value)) || Blank(Stringify(CellAt(row, cols.name.value)))
    ensures ClassifyRow(row, cols).Accept? <==>
      StatusCellValid(CellAt(row, cols.status)) && SerialCellValid(CellAt(row, cols.serial))
  {
  }
}
