/** The statistics of a comparison (`calcularEstadisticasPorEstado`,
    `calcularEstadisticasGenerales`). Percentages are kept as whole
    hundredths of a percent, so 12.34 % is 1234. */
module Statistics {
  import Seqs
  import Inventory
  import opened Comparison

  /** The figures for one permitted state. */
  datatype StatusStats = StatusStats(status: Inventory.Status, total: nat, found: nat, notFound: nat, percent: nat)

  /** The overall figures, with the per-state figures passed through. */
  datatype Stats = Stats(totalExcel: nat, totalFound: nat, totalNotFound: nat, percent: nat, byStatus: seq<StatusStats>)

  /** `Math.round(num / den * 100 * 100) / 100`, in hundredths of a percent
      and rounded half up, with 0 when `den` is 0. */
  function Percent(num: nat, den: nat): nat
  {
    if den == 0 then 0 else (20000 * num + den) / (2 * den)
  }

  /** A found result. */
  predicate IsFound(r: ComparisonResult)
  {
    r.coincidence == Found
  }

  /** A result whose status column is `st`. */
  function HasStatus(st: Inventory.Status): ComparisonResult -> bool
  {
    (r: ComparisonResult) => r.excelStatus == Permitted(st)
  }

  /** The figures for one state: the results in it, how many were found and
      how many were not, and the found percentage. */
  function StatsFor(st: Inventory.Status, results: seq<ComparisonResult>): (r: StatusStats)
    ensures r.found + r.notFound == r.total
    ensures r.total == 0 ==> r.percent == 0
  {
    var inState := Seqs.Filter(results, HasStatus(st));
    var found := Seqs.Count(inState, IsFound);
    StatusStats(st, |inState|, found, |inState| - found, Percent(found, |inState|))
  }

  /** `calcularEstadisticasPorEstado`: one entry per permitted state, in the
      fixed order of the states. */
  function StatsByStatus(results: seq<ComparisonResult>): (r: seq<StatusStats>)
    ensures |r| == |Inventory.PermittedStatuses|
    ensures forall i :: 0 <= i < |r| ==> r[i].status == Inventory.PermittedStatuses[i]
    ensures forall i :: 0 <= i < |r| ==> r[i].found + r[i].notFound == r[i].total
  {
    seq(|Inventory.PermittedStatuses|, i requires 0 <= i < |Inventory.PermittedStatuses| =>
      StatsFor(Inventory.PermittedStatuses[i], results))
  }

  /** `calcularEstadisticasGenerales`: every result counts, missing ones
      included, and the per-state figures are passed through. */
  function Overall(results: seq<ComparisonResult>, byStatus: seq<StatusStats>): (r: Stats)
    ensures r.totalExcel == |results|
    ensures r.totalFound + r.totalNotFound == |results|
    ensures r.byStatus == byStatus
    ensures |results| == 0 ==> r.percent == 0
  {
    var found := Seqs.Count(results, IsFound);
    Stats(|results|, found, |results| - found, Percent(found, |results|), byStatus)
  }

  /** A found result whose status column is `st`. */
  function FoundIn(st: Inventory.Status): ComparisonResult -> bool
  {
    (r: ComparisonResult) => r.excelStatus == Permitted(st) && r.coincidence == Found
  }

  /** The figures for a state count the results in it and the found results
      in it, the found ones are a part of the total, and the percentage lies
      between 0 % and 100 %, reaching 100 % when every result in the state
      was found. */
  lemma StatsForSpec(st: Inventory.Status, results: seq<ComparisonResult>)
    ensures StatsFor(st, results).total == Seqs.Count(results, HasStatus(st))
    ensures StatsFor(st, results).found == Seqs.Count(results, FoundIn(st))
    ensures StatsFor(st, results).found <= StatsFor(st, results).total
    ensures StatsFor(st, results).percent <= 10000
    ensures StatsFor(st, results).total > 0 && StatsFor(st, results).notFound == 0 ==>
              StatsFor(st, results).percent == 10000
  {
    var inState := Seqs.Filter(results, HasStatus(st));
    Seqs.FilterFilter(results, HasStatus(st), IsFound, FoundIn(st));
    PercentAtMostWhole(Seqs.Count(inState, IsFound), |inState|);
    if |inState| > 0 {
      PercentOfWhole(|inState|);
    }
  }

  /** The overall figures count the found results among all of them, the
      found ones are a part of the total, and the percentage lies between
      0 % and 100 %. */
  lemma OverallSpec(results: seq<ComparisonResult>, byStatus: seq<StatusStats>)
    ensures Overall(results, byStatus).totalFound == Seqs.Count(results, IsFound)
    ensures Overall(results, byStatus).totalFound <= |results|
    ensures Overall(results, byStatus).percent <= 10000
    ensures |results| > 0 && Overall(results, byStatus).totalNotFound == 0 ==>
              Overall(results, byStatus).percent == 10000
  {
    PercentAtMostWhole(Seqs.Count(results, IsFound), |results|);
    if |results| > 0 {
      PercentOfWhole(|results|);
    }
  }

  // ---------------------------------------------------------------------
  // Percentages
  // ---------------------------------------------------------------------

  /** The percentage is the nearest hundredth, halves rounded up:
      `den * (2p - 1) <= 20000 * num < den * (2p + 1)`. */
  lemma PercentRounds(num: nat, den: nat)
    requires den > 0
    ensures den * (2 * Percent(num, den) - 1) <= 20000 * num < den * (2 * Percent(num, den) + 1)
  {
    var p := Percent(num, den);
    var x := 20000 * num + den;
    assert 2 * den * p <= x < 2 * den * p + 2 * den;
  }

  /** A positive factor can be cancelled from both sides of an inequality. */
  lemma CancelFactor(d: int, a: int, b: int)
    requires d > 0
    ensures d * a <= d * b ==> a <= b
    ensures d * a < d * b ==> a < b
  {
    if a > b {
      assert d * a - d * b == d * (a - b);
      assert d * (a - b) > 0;
    } else if a == b {
    }
  }

  /** A part of a whole is at most 100 %. */
  lemma PercentAtMostWhole(num: nat, den: nat)
    requires num <= den
    ensures Percent(num, den) <= 10000
  {
    if den > 0 {
      PercentRounds(num, den);
      var p: int := Percent(num, den);
      assert den * (2 * p - 1) <= den * 20000;
      CancelFactor(den, 2 * p - 1, 20000);
    }
  }

  /** The whole is exactly 100 %. */
  lemma PercentOfWhole(den: nat)
    requires den > 0
    ensures Percent(den, den) == 10000
  {
    PercentRounds(den, den);
    var p: int := Percent(den, den);
    assert 20000 * den == den * 20000;
    CancelFactor(den, 2 * p - 1, 20000);
    CancelFactor(den, 20000, 2 * p + 1);
  }

  /** Nothing is 0 %. */
  lemma PercentOfNothing(den: nat)
    ensures Percent(0, den) == 0
  {
    if den > 0 {
      PercentRounds(0, den);
      var p: int := Percent(0, den);
      assert den * (2 * p - 1) <= den * 0;
      CancelFactor(den, 2 * p - 1, 0);
    }
  }

  // ---------------------------------------------------------------------
  // Properties of the statistics
  // ---------------------------------------------------------------------

  /** Missing results belong to no state: adding them leaves the per-state
      figures unchanged. */
  lemma MissingInNoStatus(results: seq<ComparisonResult>, missing: seq<ComparisonResult>)
    requires forall k :: 0 <= k < |missing| ==> missing[k].excelStatus == Faltante
    ensures StatsByStatus(results + missing) == StatsByStatus(results)
  {
    forall i | 0 <= i < |Inventory.PermittedStatuses|
      ensures StatsFor(Inventory.PermittedStatuses[i], results + missing) == StatsFor(Inventory.PermittedStatuses[i], results)
    {
      var p := HasStatus(Inventory.PermittedStatuses[i]);
      Seqs.FilterAppend(results, missing, p);
      Seqs.FilterAllOrNone(missing, p);
      assert Seqs.Filter(results, p) + [] == Seqs.Filter(results, p);
    }
  }

  /** The per-state figures of a comparison depend only on the spreadsheet
      records and the manual serials' verdict on them, not on which manual
      serials are missing. */
  lemma StatsIgnoreMissingSerials(rows: seq<Inventory.ExcelRow>, table: seq<string>)
    ensures StatsByStatus(CompareSerials(rows, table)) == StatsByStatus(ExcelPart(rows, table))
  {
    var m := MissingPart(rows, table);
    MissingInNoStatus(ExcelPart(rows, table), m);
  }

  /** The number of results in state `st`. */
  function InStatus(results: seq<ComparisonResult>, st: Inventory.Status): nat
  {
    Seqs.Count(results, HasStatus(st))
  }

  /** A result that is not missing. */
  predicate NotFaltante(r: ComparisonResult)
  {
    r.excelStatus.Permitted?
  }

  /** Filtering one result and a sequence. */
  lemma FilterConsResult(r: ComparisonResult, rs: seq<ComparisonResult>, p: ComparisonResult -> bool)
    ensures Seqs.Count([r] + rs, p) == (if p(r) then 1 else 0) + Seqs.Count(rs, p)
  {
    assert ([r] + rs)[1..] == rs;
  }

  /** A result lies in exactly one state, unless it is missing. */
  lemma OneResultInOneStatus(r: ComparisonResult)
    ensures (if HasStatus(Inventory.Available)(r) then 1 else 0) + (if HasStatus(Inventory.AwaitingDisposal)(r) then 1 else 0)
          + (if HasStatus(Inventory.Reserved)(r) then 1 else 0) + (if HasStatus(Inventory.Preparacion)(r) then 1 else 0)
          == (if NotFaltante(r) then 1 else 0)
  {
    match r.excelStatus
    case Faltante =>
    case Permitted(st) =>
      match st
      case Available =>
      case AwaitingDisposal =>
      case Reserved =>
      case Preparacion =>
  }

  /** The per-state totals add up to the number of results that are not
      missing. */
  lemma {:induction false} StatusTotalsSum(results: seq<ComparisonResult>)
    ensures InStatus(results, Inventory.Available) + InStatus(results, Inventory.AwaitingDisposal)
          + InStatus(results, Inventory.Reserved) + InStatus(results, Inventory.Preparacion)
          == Seqs.Count(results, NotFaltante)
  {
    if results != [] {
      StatusTotalsSum(results[1..]);
      assert results == [results[0]] + results[1..];
      FilterConsResult(results[0], results[1..], HasStatus(Inventory.Available));
      FilterConsResult(results[0], results[1..], HasStatus(Inventory.AwaitingDisposal));
      FilterConsResult(results[0], results[1..], HasStatus(Inventory.Reserved));
      FilterConsResult(results[0], results[1..], HasStatus(Inventory.Preparacion));
      FilterConsResult(results[0], results[1..], NotFaltante);
      OneResultInOneStatus(results[0]);
    }
  }

  /** In the statistics of a comparison the per-state totals add up to the
      number of spreadsheet records. */
  lemma ComparisonStatusTotals(rows: seq<Inventory.ExcelRow>, table: seq<string>)
    ensures var byStatus := StatsByStatus(CompareSerials(rows, table));
            byStatus[0].total + byStatus[1].total + byStatus[2].total + byStatus[3].total == |rows|
  {
    var e := ExcelPart(rows, table);
    StatsIgnoreMissingSerials(rows, table);
    StatusTotalsSum(e);
    Seqs.FilterAllOrNone(e, NotFaltante);
  }

  /** The overall figures of a comparison count every missing serial as not
      found, on top of the records nobody matched. */
  lemma ComparisonOverallNotFound(rows: seq<Inventory.ExcelRow>, table: seq<string>)
    ensures var results := CompareSerials(rows, table);
            Overall(results, StatsByStatus(results)).totalNotFound
              == |rows| - Seqs.Count(ExcelPart(rows, table), IsFound) + |MissingPart(rows, table)|
  {
    var e := ExcelPart(rows, table);
    var m := MissingPart(rows, table);
    Seqs.FilterAppend(e, m, IsFound);
    Seqs.FilterAllOrNone(m, IsFound);
    assert Seqs.Filter(e, IsFound) + [] == Seqs.Filter(e, IsFound);
  }
}
