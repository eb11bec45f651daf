/** Submitting the comparison (`handleEnviar`): the guards, the comparison
    of the loaded records with the manual serials, the observations
    attached to the results, and the statistics. */
module Submission {
  import opened Wrappers
  import Seqs
  import Inventory
  import opened Serials
  import opened Comparison
  import opened Statistics
  import opened ManualTable

  /** Why nothing is submitted (the two alerts). */
  datatype SendError = NoExcelData | NoManualSerials

  /** What a submission shows: the annotated results and their statistics. */
  datatype Outcome = Outcome(results: seq<ComparisonResult>, stats: Stats)

  /** A manual row whose serial matches `serial`, as a `find` callback. */
  function RowMatches(serial: string): InventoryRow -> bool
  {
    (row: InventoryRow) => SerialsMatch(row.serial, serial)
  }

  /** `filaEncontrada?.observacion || ""`: the note of the first manual row
      whose serial matches, or the empty string. */
  function NoteFor(rows: seq<InventoryRow>, serial: string): string
  {
    match Seqs.FindIndex(rows, RowMatches(serial), 0)
    case Some(i) => rows[i].note
    case None => ""
  }

  /** A found or missing result gets the note of its manual row; a result
      that was not found is left as it is. */
  function Annotator(rows: seq<InventoryRow>): ComparisonResult -> ComparisonResult
  {
    (r: ComparisonResult) =>
      if r.coincidence == Found || r.coincidence == Missing then r.(note := Some(NoteFor(rows, r.serial))) else r
  }

  /** `handleEnviar` on the loaded records `excel` and the manual table. */
  function Send(rows: seq<InventoryRow>, excel: seq<Inventory.ExcelRow>): Result<Outcome, SendError>
  {
    if excel == [] then Failure(NoExcelData)
    else
      var serials := ManualSerials(rows);
      if serials == [] then Failure(NoManualSerials)
      else
        var results := Seqs.Map(CompareSerials(excel, serials), Annotator(rows));
        Success(Outcome(results, Overall(results, StatsByStatus(results))))
  }

  /** Submission fails without loaded records, then without a non-blank
      manual serial, and succeeds otherwise. */
  lemma SendGuards(rows: seq<InventoryRow>, excel: seq<Inventory.ExcelRow>)
    ensures excel == [] ==> Send(rows, excel) == Failure(NoExcelData)
    ensures excel != [] && (forall i :: 0 <= i < |rows| ==> Text.Blank(rows[i].serial)) ==>
      Send(rows, excel) == Failure(NoManualSerials)
    ensures Send(rows, excel).Success? <==>
      excel != [] && exists i :: 0 <= i < |rows| && !Text.Blank(rows[i].serial)
  {
    NoManualSerialsIffAllBlank(rows);
  }

  /** The submitted results are the comparison of the records with the
      manual serials, each with the same serial, status and classification;
      exactly the found and missing ones carry a note, taken from the first
      manual row that matches. */
  lemma SendAnnotates(rows: seq<InventoryRow>, excel: seq<Inventory.ExcelRow>, k: nat)
    requires Send(rows, excel).Success?
    requires k < |CompareSerials(excel, ManualSerials(rows))|
    ensures var c := CompareSerials(excel, ManualSerials(rows))[k];
      var r := Send(rows, excel).value.results;
      && |r| == |CompareSerials(excel, ManualSerials(rows))|
      && r[k].serial == c.serial && r[k].excelStatus == c.excelStatus && r[k].coincidence == c.coincidence
      && (r[k].note.Some? <==> c.coincidence != NotFound)
      && (r[k].note.Some? ==> r[k].note.value == NoteFor(rows, c.serial))
  {
  }

  /** The note is that of the first manual row whose serial matches, and
      empty when none does. */
  lemma NoteForSpec(rows: seq<InventoryRow>, serial: string)
    ensures (forall i :: 0 <= i < |rows| ==> !SerialsMatch(rows[i].serial, serial)) ==> NoteFor(rows, serial) == ""
    ensures forall i :: (0 <= i < |rows| && SerialsMatch(rows[i].serial, serial)
      && forall j :: 0 <= j < i ==> !SerialsMatch(rows[j].serial, serial)) ==> NoteFor(rows, serial) == rows[i].note
  {
    Seqs.FindIndexFirst(rows, RowMatches(serial), 0);
  }

  /** Attaching notes changes no figure: the statistics are those of the
      plain comparison. */
  lemma SendStatistics(rows: seq<InventoryRow>, excel: seq<Inventory.ExcelRow>)
    requires Send(rows, excel).Success?
    ensures var c := CompareSerials(excel, ManualSerials(rows));
      var s := Send(rows, excel).value.stats;
      && s.byStatus == StatsByStatus(c)
      && s.totalExcel == |c|
      && s.totalFound == Seqs.Count(c, IsFound)
  {
    var c := CompareSerials(excel, ManualSerials(rows));
    var f := Annotator(rows);
    Seqs.FilterMap(c, f, IsFound, IsFound);
    forall i | 0 <= i < |Inventory.PermittedStatuses|
      ensures StatsFor(Inventory.PermittedStatuses[i], Seqs.Map(c, f)) == StatsFor(Inventory.PermittedStatuses[i], c)
    {
      var p := HasStatus(Inventory.PermittedStatuses[i]);
      Seqs.FilterMap(c, f, p, p);
      Seqs.FilterMap(Seqs.Filter(c, p), f, IsFound, IsFound);
    }
  }
}
