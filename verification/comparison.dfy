/** The three-way comparison of the inventory reconciliation
    (`compararSeriales`): every spreadsheet record is found or not found in
    the manually entered serials, and every non-blank manual serial that no
    record matches is reported as missing. */
module Comparison {
  import opened Wrappers
  import opened Text
  import opened Serials
  import Seqs
  import Inventory

  /** The classification of one result: "encontrado", "no_encontrado" or
      "faltante". */
  datatype Coincidence = Found | NotFound | Missing

  /** The status column of a result: a permitted state for a spreadsheet
      record, or the sentinel "Faltante" for a missing manual serial. */
  datatype ExcelStatus = Permitted(status: Inventory.Status) | Faltante

  /** One row of the comparison table; `note` is the observation attached
      when the comparison is submitted. */
  datatype ComparisonResult = ComparisonResult(
    serial: string,
    excelStatus: ExcelStatus,
    coincidence: Coincidence,
    note: Option<string>)

  /** Some manual serial matches `serial`. */
  predicate InTable(table: seq<string>, serial: string)
  {
    exists j :: 0 <= j < |table| && SerialsMatch(table[j], serial)
  }

  /** The manual serial `t` matches some spreadsheet record. */
  predicate InExcel(rows: seq<Inventory.ExcelRow>, t: string)
  {
    exists i :: 0 <= i < |rows| && SerialsMatch(t, rows[i].serial)
  }

  /** The result for one spreadsheet record: its serial and state, copied,
      and whether any manual serial matches it. */
  function Classify(row: Inventory.ExcelRow, table: seq<string>): ComparisonResult
  {
    ComparisonResult(row.serial, Permitted(row.status), if InTable(table, row.serial) then Found else NotFound, None)
  }

  /** The first pass: one result per spreadsheet record, in order. */
  function ExcelPart(rows: seq<Inventory.ExcelRow>, table: seq<string>): seq<ComparisonResult>
  {
    seq(|rows|, i requires 0 <= i < |rows| => Classify(rows[i], table))
  }

  /** A manual serial that is reported missing: not blank and matching no
      record. */
  predicate Unmatched(rows: seq<Inventory.ExcelRow>, t: string)
  {
    !Blank(t) && !InExcel(rows, t)
  }

  /** `Unmatched` as a filter callback. */
  function UnmatchedIn(rows: seq<Inventory.ExcelRow>): string -> bool
  {
    t => Unmatched(rows, t)
  }

  /** The result reporting a missing manual serial, verbatim. */
  function MissingResult(t: string): ComparisonResult
  {
    ComparisonResult(t, Faltante, Missing, None)
  }

  /** The results for a sequence of missing serials. */
  function MissingResults(ts: seq<string>): seq<ComparisonResult>
  {
    seq(|ts|, k requires 0 <= k < |ts| => MissingResult(ts[k]))
  }

  /** The second pass: the unmatched manual serials, in table order. */
  function MissingPart(rows: seq<Inventory.ExcelRow>, table: seq<string>): seq<ComparisonResult>
  {
    MissingResults(Seqs.Filter(table, UnmatchedIn(rows)))
  }

  /** `compararSeriales`: both passes, spreadsheet results first. */
  function CompareSerials(rows: seq<Inventory.ExcelRow>, table: seq<string>): seq<ComparisonResult>
  {
    ExcelPart(rows, table) + MissingPart(rows, table)
  }

  /** The inner loop of the first pass: scans the manual serials and stops
      at the first one that matches. */
  method SearchTable(table: seq<string>, serial: string) returns (found: bool)
    ensures found <==> InTable(table, serial)
  {
    found := false;
    var j := 0;
    while j < |table|
      invariant 0 <= j <= |table|
      invariant forall k :: 0 <= k < j ==> !SerialsMatch(table[k], serial)
    {
      if SerialsMatch(table[j], serial) {
        found := true;
        break;
      }
      j := j + 1;
    }
  }

  /** The inner loop of the second pass: scans the records and stops at the
      first one the manual serial matches. */
  method SearchExcel(rows: seq<Inventory.ExcelRow>, t: string) returns (found: bool)
    ensures found <==> InExcel(rows, t)
  {
    found := false;
    var i := 0;
    while i < |rows|
      invariant 0 <= i <= |rows|
      invariant forall k :: 0 <= k < i ==> !SerialsMatch(t, rows[k].serial)
    {
      if SerialsMatch(t, rows[i].serial) {
        found := true;
        break;
      }
      i := i + 1;
    }
  }

  /** The first pass as written: one result pushed per record. */
  method FirstPass(rows: seq<Inventory.ExcelRow>, table: seq<string>) returns (results: seq<ComparisonResult>)
    ensures results == ExcelPart(rows, table)
  {
    results := [];
    var i := 0;
    while i < |rows|
      invariant 0 <= i <= |rows|
      invariant |results| == i
      invariant forall k :: 0 <= k < i ==> results[k] == Classify(rows[k], table)
    {
      var found := SearchTable(table, rows[i].serial);
      results := results + [ComparisonResult(rows[i].serial, Permitted(rows[i].status), if found then Found else NotFound, None)];
      i := i + 1;
    }
  }

  /** The second pass as written: a missing result pushed for every
      non-blank manual serial no record matches. */
  method SecondPass(rows: seq<Inventory.ExcelRow>, table: seq<string>) returns (missing: seq<ComparisonResult>)
    ensures missing == MissingPart(rows, table)
  {
    missing := [];
    var j := 0;
    while j < |table|
      invariant 0 <= j <= |table|
      invariant missing == MissingPart(rows, table[..j])
    {
      var t := table[j];
      assert table[..j + 1] == table[..j] + [t];
      Seqs.FilterAppend(table[..j], [t], UnmatchedIn(rows));
      if !Blank(t) {
        var found := SearchExcel(rows, t);
        if !found {
          missing := missing + [MissingResult(t)];
        }
      }
      j := j + 1;
    }
    assert table[..|table|] == table;
  }

  /** `compararSeriales` as written: the first pass, then the second. */
  method Compare(rows: seq<Inventory.ExcelRow>, table: seq<string>) returns (results: seq<ComparisonResult>)
    ensures results == CompareSerials(rows, table)
  {
    var found := FirstPass(rows, table);
    var missing := SecondPass(rows, table);
    results := found + missing;
  }

  // ---------------------------------------------------------------------
  // Properties of the comparison
  // ---------------------------------------------------------------------

  /** There is one result per record, followed by at most one per manual
      serial. */
  lemma CompareLength(rows: seq<Inventory.ExcelRow>, table: seq<string>)
    ensures |rows| <= |CompareSerials(rows, table)| <= |rows| + |table|
  {
  }

  /** The first |rows| results mirror the records in order, with the same
      serial and state; a result is found exactly when some manual serial
      matches the record, and not found otherwise. */
  lemma CompareMirrorsExcel(rows: seq<Inventory.ExcelRow>, table: seq<string>, i: nat)
    requires i < |rows|
    ensures i < |CompareSerials(rows, table)|
    ensures CompareSerials(rows, table)[i].serial == rows[i].serial
    ensures CompareSerials(rows, table)[i].excelStatus == Permitted(rows[i].status)
    ensures CompareSerials(rows, table)[i].coincidence == Found <==>
      exists j :: 0 <= j < |table| && SerialsMatch(table[j], rows[i].serial)
    ensures CompareSerials(rows, table)[i].coincidence != Missing
  {
  }

  /** The later results are exactly the non-blank manual serials that match
      no record, each once, verbatim and in table order, all reported as
      missing with the "Faltante" status. */
  lemma CompareMissingTail(rows: seq<Inventory.ExcelRow>, table: seq<string>, pos: seq<nat>)
    requires pos == Seqs.Positions(table, UnmatchedIn(rows))
    ensures |CompareSerials(rows, table)| == |rows| + |pos|
    ensures Seqs.ExactPositions(table, UnmatchedIn(rows), pos)
    ensures forall k :: 0 <= k < |pos| ==>
      CompareSerials(rows, table)[|rows| + k] == MissingResult(table[pos[k]])
  {
    Seqs.FilterIsOrderedSelection(table, UnmatchedIn(rows));
  }

  /** A result is missing exactly when it lies after the spreadsheet
      results. */
  lemma MissingOnlyInTail(rows: seq<Inventory.ExcelRow>, table: seq<string>, k: nat)
    requires k < |CompareSerials(rows, table)|
    ensures CompareSerials(rows, table)[k].coincidence == Missing <==> k >= |rows|
    ensures CompareSerials(rows, table)[k].excelStatus == Faltante <==> k >= |rows|
  {
  }

  /** A manual serial is reported missing only when it is not blank and
      matches no record, and every such serial is reported. */
  lemma MissingIffUnmatched(rows: seq<Inventory.ExcelRow>, table: seq<string>, j: nat)
    requires j < |table|
    ensures (exists k :: |rows| <= k < |CompareSerials(rows, table)| && CompareSerials(rows, table)[k].serial == table[j])
      <== (!Blank(table[j]) && !InExcel(rows, table[j]))
    ensures forall k :: |rows| <= k < |CompareSerials(rows, table)| ==>
      Unmatched(rows, CompareSerials(rows, table)[k].serial)
  {
    var pos := Seqs.Positions(table, UnmatchedIn(rows));
    CompareMissingTail(rows, table, pos);
    if Unmatched(rows, table[j]) {
      var k :| 0 <= k < |pos| && pos[k] == j;
      assert CompareSerials(rows, table)[|rows| + k].serial == table[j];
    }
    forall k | |rows| <= k < |CompareSerials(rows, table)|
      ensures Unmatched(rows, CompareSerials(rows, table)[k].serial)
    {
      assert CompareSerials(rows, table)[k] == MissingResult(table[pos[k - |rows|]]);
    }
  }

  /** Whether a record is found depends only on the match keys: it is found
      exactly when some manual serial has the same key. */
  lemma FoundByKey(table: seq<string>, serial: string)
    ensures InTable(table, serial) <==> exists j :: 0 <= j < |table| && MatchKey(table[j]) == MatchKey(serial)
  {
    forall j | 0 <= j < |table|
      ensures SerialsMatch(table[j], serial) <==> MatchKey(table[j]) == MatchKey(serial)
    {
      MatchIffSameKey(table[j], serial);
    }
  }

  /** A manual serial and a record that match cancel out: the record is
      found and the serial is not reported missing. */
  lemma MatchedPairCancels(rows: seq<Inventory.ExcelRow>, table: seq<string>, i: nat, j: nat)
    requires i < |rows| && j < |table|
    requires SerialsMatch(table[j], rows[i].serial)
    ensures CompareSerials(rows, table)[i].coincidence == Found
    ensures !Unmatched(rows, table[j])
  {
  }

  /** Manual serials that differ only in letter case or spacing are missing
      together or not at all. */
  lemma MissingRespectsMatch(rows: seq<Inventory.ExcelRow>, t: string, u: string)
    requires SerialsMatch(t, u)
    ensures InExcel(rows, t) <==> InExcel(rows, u)
  {
    if InExcel(rows, t) {
      var i :| 0 <= i < |rows| && SerialsMatch(t, rows[i].serial);
      MatchSymmetric(t, u);
      MatchTransitive(u, t, rows[i].serial);
    }
    if InExcel(rows, u) {
      var i :| 0 <= i < |rows| && SerialsMatch(u, rows[i].serial);
      MatchTransitive(t, u, rows[i].serial);
    }
  }
}
