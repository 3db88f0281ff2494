/**
 * `SimulationResult`: the per-day tables of one simulation run, the summary
 * `finalize` derives from them, and the label `__str__` gives the run.
 */
module SimResult {
  import opened Wrappers
  import opened State
  import opened DayTable
  import Decimal

  /** What `finalize` stores: the three headline numbers and the per-day totals. */
  datatype Summary = Summary(
    numDeceased: nat,
    peakInfected: nat,
    totalAffected: int,
    overallCounts: seq<Counts>)

  /**
   * One run. `summary` is `None` until `finalize` has run; the intervention
   * days are a day number or Python's `None`.
   */
  datatype SimulationResult = SimulationResult(
    popSize: int,
    nDays: int,
    travelRestrictionDay: Option<int>,
    socialDistancingDay: Option<int>,
    dailyCountsPerHood: seq<Table>,
    summary: Option<Summary>)

  /** The constructor: no day recorded, nothing finalized. */
  function New(popSize: int, nDays: int, trDay: Option<int>, sdDay: Option<int>): (r: SimulationResult)
    ensures r.popSize == popSize && r.nDays == nDays
    ensures r.travelRestrictionDay == trDay && r.socialDistancingDay == sdDay
    ensures |r.dailyCountsPerHood| == 0 && r.summary.None?
  {
    SimulationResult(popSize, nDays, trDay, sdDay, [], None)
  }

  /**
   * `add_day_results`: appends exactly one table, built from the day's
   * records, and touches nothing else (a summary already computed is kept
   * as it was, as the source does not guard against adding after `finalize`).
   */
  function AddDay(r: SimulationResult, records: seq<Record>): (r': SimulationResult)
    ensures |r'.dailyCountsPerHood| == |r.dailyCountsPerHood| + 1
    ensures r'.dailyCountsPerHood[..|r.dailyCountsPerHood|] == r.dailyCountsPerHood
    ensures r'.dailyCountsPerHood[|r.dailyCountsPerHood|] == AddDayResults(records)
    ensures r'.popSize == r.popSize && r'.nDays == r.nDays && r'.summary == r.summary
    ensures r'.travelRestrictionDay == r.travelRestrictionDay
    ensures r'.socialDistancingDay == r.socialDistancingDay
  {
    r.(dailyCountsPerHood := r.dailyCountsPerHood + [AddDayResults(records)])
  }

  /**
   * The loop of `finalize`: `peak_inf` starts at 0 and is raised to every day
   * total that exceeds it. The result bounds every total and is one of them
   * unless it is the starting 0.
   */
  function PeakOf(totals: seq<nat>): (p: nat)
    ensures forall d :: 0 <= d < |totals| ==> totals[d] <= p
    ensures p == 0 || p in totals
    decreases |totals|
  {
    if |totals| == 0 then 0
    else
      var prev := PeakOf(totals[..|totals| - 1]);
      var today := totals[|totals| - 1];
      assert totals == totals[..|totals| - 1] + [today];
      if today > prev then today else prev
  }

  /** The peak is the least non-negative bound of the totals: no smaller bound exists. */
  lemma PeakIsLeastBound(totals: seq<nat>, bound: nat)
    requires forall d :: 0 <= d < |totals| ==> totals[d] <= bound
    ensures PeakOf(totals) <= bound
  {
  }

  /**
   * Each day's infected total, `count_per_hood[PersonState.infected].sum()`.
   * The contract only fixes the layout; `PeakCountsRecords` says what the
   * totals count.
   */
  ghost function InfectedTotals(days: seq<Table>): (totals: seq<nat>)
    ensures |totals| == |days|
    ensures forall d :: 0 <= d < |days| ==> totals[d] == ColumnTotal(days[d], Infected)
  {
    seq(|days|, d requires 0 <= d < |days| => ColumnTotal(days[d], Infected))
  }

  /**
   * `_determine_overall_counts`: one row per recorded day, row `d` summing day
   * `d`'s columns. The contract only fixes the layout; `OverallCountsRecords`
   * says what each row counts.
   */
  ghost function OverallCounts(days: seq<Table>): (rows: seq<Counts>)
    ensures |rows| == |days|
    ensures forall d :: 0 <= d < |days| ==> rows[d] == DayTotals(days[d])
  {
    seq(|days|, d requires 0 <= d < |days| => DayTotals(days[d]))
  }

  /** `daily_counts_per_hood[-1]` of an empty list raises `IndexError`. */
  datatype FinalizeError = IndexError

  /**
   * `finalize`: fails when no day was recorded; otherwise reads the deceased
   * and untouched totals of the last day, the peak of the daily infected
   * totals, and the per-day totals, and leaves the recorded days as they were.
   */
  ghost function Finalize(r: SimulationResult): (f: Result<SimulationResult, FinalizeError>)
    ensures f.Failure? <==> |r.dailyCountsPerHood| == 0
    ensures f.Success? ==>
      && f.value.summary.Some?
      && f.value.dailyCountsPerHood == r.dailyCountsPerHood
      && f.value.popSize == r.popSize && f.value.nDays == r.nDays
      && f.value.travelRestrictionDay == r.travelRestrictionDay
      && f.value.socialDistancingDay == r.socialDistancingDay
    ensures f.Success? ==>
      var s := f.value.summary.value;
      var days := r.dailyCountsPerHood;
      && s.numDeceased == ColumnTotal(days[|days| - 1], Deceased)
      && s.totalAffected == r.popSize - ColumnTotal(days[|days| - 1], Untouched)
      && (forall d :: 0 <= d < |days| ==> ColumnTotal(days[d], Infected) <= s.peakInfected)
      && (s.peakInfected == 0 || exists d :: 0 <= d < |days| && s.peakInfected == ColumnTotal(days[d], Infected))
      && |s.overallCounts| == |days|
      && (forall d :: 0 <= d < |days| ==> s.overallCounts[d] == DayTotals(days[d]))
  {
    var days := r.dailyCountsPerHood;
    if |days| == 0 then Failure(IndexError)
    else
      var lastDay := DayTotals(days[|days| - 1]);
      var peak := PeakOf(InfectedTotals(days));
      Success(r.(summary := Some(Summary(
        lastDay.deceased,
        peak,
        r.popSize - lastDay.untouched,
        OverallCounts(days)))))
  }

  /** Finalizing twice gives what finalizing once gave: the summary depends only on the recorded days. */
  lemma FinalizeIdempotent(r: SimulationResult)
    requires Finalize(r).Success?
    ensures Finalize(Finalize(r).value) == Finalize(r)
  {
  }

  /** The recorded days are the tables of these per-day record batches. */
  ghost predicate BuiltFrom(r: SimulationResult, batches: seq<seq<Record>>)
  {
    && |r.dailyCountsPerHood| == |batches|
    && forall d :: 0 <= d < |batches| ==> r.dailyCountsPerHood[d] == AddDayResults(batches[d])
  }

  /** A fresh result is built from no batches, and `add_day_results` extends the batches by one. */
  lemma AddDayExtendsBuild(r: SimulationResult, batches: seq<seq<Record>>, records: seq<Record>)
    requires BuiltFrom(r, batches)
    ensures BuiltFrom(AddDay(r, records), batches + [records])
  {
    var r' := AddDay(r, records);
    var batches' := batches + [records];
    forall d | 0 <= d < |batches'|
      ensures r'.dailyCountsPerHood[d] == AddDayResults(batches'[d])
    {
      if d < |batches| {
        assert batches'[d] == batches[d];
        assert r'.dailyCountsPerHood[d] == r'.dailyCountsPerHood[..|batches|][d];
      }
    }
  }

  /**
   * Stated in terms of the people: the deceased count is the number of last-day
   * records in state deceased, the affected count the population minus the
   * last-day untouched records, the peak bounds every day's infected records,
   * and overall row `d` counts day `d`'s records per state and in total.
   */
  lemma FinalizeCountsRecords(r: SimulationResult, batches: seq<seq<Record>>)
    requires |batches| > 0 && BuiltFrom(r, batches)
    ensures Finalize(r).Success?
    ensures var s := Finalize(r).value.summary.value;
      && s.numDeceased == CountState(batches[|batches| - 1], Deceased)
      && s.totalAffected == r.popSize - CountState(batches[|batches| - 1], Untouched)
      && (forall d :: 0 <= d < |batches| ==> CountState(batches[d], Infected) <= s.peakInfected)
      && (s.peakInfected == 0 || exists d :: 0 <= d < |batches| && s.peakInfected == CountState(batches[d], Infected))
      && (forall d, st :: 0 <= d < |batches| ==> s.overallCounts[d].Get(st) == CountState(batches[d], st))
      && (forall d :: 0 <= d < |batches| ==> s.overallCounts[d].Total() == |batches[d]|)
  {
    LastDayCountsRecords(r, batches);
    PeakCountsRecords(r, batches);
    OverallCountsRecords(r, batches);
  }

  /** The deceased and affected counts, read off the last day's records. */
  lemma LastDayCountsRecords(r: SimulationResult, batches: seq<seq<Record>>)
    requires |batches| > 0 && BuiltFrom(r, batches)
    ensures Finalize(r).Success?
    ensures var s := Finalize(r).value.summary.value;
      && s.numDeceased == CountState(batches[|batches| - 1], Deceased)
      && s.totalAffected == r.popSize - CountState(batches[|batches| - 1], Untouched)
  {
    ColumnTotalIsStateCount(batches[|batches| - 1], Deceased);
    ColumnTotalIsStateCount(batches[|batches| - 1], Untouched);
  }

  /** The peak, read off each day's infected records. */
  lemma PeakCountsRecords(r: SimulationResult, batches: seq<seq<Record>>)
    requires |batches| > 0 && BuiltFrom(r, batches)
    ensures Finalize(r).Success?
    ensures var s := Finalize(r).value.summary.value;
      && (forall d :: 0 <= d < |batches| ==> CountState(batches[d], Infected) <= s.peakInfected)
      && (s.peakInfected == 0 || exists d :: 0 <= d < |batches| && s.peakInfected == CountState(batches[d], Infected))
  {
    var days := r.dailyCountsPerHood;
    forall d | 0 <= d < |batches|
      ensures ColumnTotal(days[d], Infected) == CountState(batches[d], Infected)
    {
      ColumnTotalIsStateCount(batches[d], Infected);
    }
  }

  /** The per-day totals, read off each day's records. */
  lemma OverallCountsRecords(r: SimulationResult, batches: seq<seq<Record>>)
    requires |batches| > 0 && BuiltFrom(r, batches)
    ensures Finalize(r).Success?
    ensures var s := Finalize(r).value.summary.value;
      && (forall d, st :: 0 <= d < |batches| ==> s.overallCounts[d].Get(st) == CountState(batches[d], st))
      && (forall d :: 0 <= d < |batches| ==> s.overallCounts[d].Total() == |batches[d]|)
  {
    var s := Finalize(r).value.summary.value;
    forall d | 0 <= d < |batches|
      ensures forall st :: s.overallCounts[d].Get(st) == CountState(batches[d], st)
      ensures s.overallCounts[d].Total() == |batches[d]|
    {
      DayTotalsOfRecords(batches[d]);
    }
  }

  /**
   * When the last day lists the whole population, the affected count is the
   * number of people infected, recovered or deceased on that day, so it lies
   * between 0 and the population size.
   */
  lemma AffectedIsEveryoneTouched(r: SimulationResult, batches: seq<seq<Record>>)
    requires |batches| > 0 && BuiltFrom(r, batches)
    requires |batches[|batches| - 1]| == r.popSize
    ensures var s := Finalize(r).value.summary.value;
      var last := batches[|batches| - 1];
      && s.totalAffected == CountState(last, Infected) + CountState(last, Recovered) + CountState(last, Deceased)
      && 0 <= s.totalAffected <= r.popSize
  {
    FinalizeCountsRecords(r, batches);
    StateCountsCoverRecords(batches[|batches| - 1]);
  }

  /** `str(x)` for an intervention day: its decimal digits, or `None`. */
  function DayText(d: Option<int>): (s: string)
    ensures ',' !in s && ' ' !in s
  {
    match d
    case None => "None"
    case Some(i) => Decimal.IntToString(i)
  }

  lemma DayTextInjective(a: Option<int>, b: Option<int>)
    requires DayText(a) == DayText(b)
    ensures a == b
  {
    match a
    case None =>
    case Some(i) =>
      if b.Some? {
        Decimal.IntToStringInjective(i, b.value);
      }
  }

  /** The three parameters a run is told apart by. */
  datatype Config = Config(nDays: int, trDay: Option<int>, sdDay: Option<int>)

  function ConfigOf(r: SimulationResult): Config
  {
    Config(r.nDays, r.travelRestrictionDay, r.socialDistancingDay)
  }

  /** The layout of `__str__`, with `sep` between the fields. */
  function Render(sep: string, nDays: string, trDay: string, sdDay: string): string
  {
    "SimulationResult(n_days=" + nDays + (sep + "tr_day=" + trDay + (sep + "sd_day=" + sdDay + ")"))
  }

  /** `__str__` (and `__repr__`): `SimulationResult(n_days=…, tr_day=…, sd_day=…)`. */
  function Str(r: SimulationResult): string
  {
    Render(", ", Decimal.IntToString(r.nDays), DayText(r.travelRestrictionDay), DayText(r.socialDistancingDay))
  }

  /** Two texts cut at their first comma agree before it. */
  lemma CutAtComma(x: string, y: string, x': string, y': string)
    requires x + y == x' + y'
    requires |y| > 0 && y[0] == ',' && |y'| > 0 && y'[0] == ','
    requires ',' !in x && ',' !in x'
    ensures x == x' && y == y'
  {
    assert x == (x + y)[..|x|];
    assert x' == (x' + y')[..|x'|];
    assert y == (x + y)[|x|..];
    assert y' == (x' + y')[|x'|..];
  }

  /** A common prefix can be taken off both sides. */
  lemma DropCommonPrefix(p: string, a: string, b: string)
    requires p + a == p + b
    ensures a == b
  {
    assert a == (p + a)[|p|..];
    assert b == (p + b)[|p|..];
  }

  /** With a separator that starts with a comma and comma-free fields, the layout can be read back. */
  lemma RenderInjective(sep: string, n: string, tr: string, sd: string, n': string, tr': string, sd': string)
    requires |sep| > 0 && sep[0] == ','
    requires ',' !in n && ',' !in tr && ',' !in n' && ',' !in tr'
    requires Render(sep, n, tr, sd) == Render(sep, n', tr', sd')
    ensures n == n' && tr == tr' && sd == sd'
  {
    var tail2 := sep + "sd_day=" + sd + ")";
    var tail2' := sep + "sd_day=" + sd' + ")";
    var tail1 := sep + "tr_day=" + tr + tail2;
    var tail1' := sep + "tr_day=" + tr' + tail2';
    assert Render(sep, n, tr, sd) == "SimulationResult(n_days=" + (n + tail1);
    assert Render(sep, n', tr', sd') == "SimulationResult(n_days=" + (n' + tail1');
    DropCommonPrefix("SimulationResult(n_days=", n + tail1, n' + tail1');
    assert tail1[0] == ',' && tail1'[0] == ',';
    CutAtComma(n, tail1, n', tail1');
    assert tail1 == (sep + "tr_day=") + (tr + tail2);
    assert tail1' == (sep + "tr_day=") + (tr' + tail2');
    DropCommonPrefix(sep + "tr_day=", tr + tail2, tr' + tail2');
    CutAtComma(tr, tail2, tr', tail2');
    assert tail2 == (sep + "sd_day=") + (sd + ")");
    assert tail2' == (sep + "sd_day=") + (sd' + ")");
    DropCommonPrefix(sep + "sd_day=", sd + ")", sd' + ")");
    assert sd == (sd + ")")[..|sd|];
    assert sd' == (sd' + ")")[..|sd'|];
  }

  /** `str(res)` tells runs apart exactly by their day count and intervention days. */
  lemma StrIdentifiesConfig(a: SimulationResult, b: SimulationResult)
    ensures Str(a) == Str(b) <==> ConfigOf(a) == ConfigOf(b)
  {
    if Str(a) == Str(b) {
      RenderInjective(", ", Decimal.IntToString(a.nDays), DayText(a.travelRestrictionDay), DayText(a.socialDistancingDay),
                            Decimal.IntToString(b.nDays), DayText(b.travelRestrictionDay), DayText(b.socialDistancingDay));
      Decimal.IntToStringInjective(a.nDays, b.nDays);
      DayTextInjective(a.travelRestrictionDay, b.travelRestrictionDay);
      DayTextInjective(a.socialDistancingDay, b.socialDistancingDay);
    }
  }
}
