/**
 * One simulated day's per-neighbourhood count table, as built by
 * `SimulationResult.add_day_results` from `(hood_id, state)` records.
 */
module DayTable {
  import opened State

  /** A neighbourhood identifier; the reporting layer only compares them. */
  type HoodId = int

  /** One person's line in a day's input: where they live and their state. */
  datatype Record = Record(hood: HoodId, state: PersonState)

  /** One table row: a count per state, the four columns in declaration order. */
  datatype Counts = Counts(untouched: nat, infected: nat, recovered: nat, deceased: nat) {

    /** The cell in column `s`. */
    function Get(s: PersonState): nat
    {
      match s
      case Untouched => untouched
      case Infected => infected
      case Recovered => recovered
      case Deceased => deceased
    }

    /** The row's cells left to right: column `i` holds the count of the `i`-th declared state. */
    function Cells(): (r: seq<nat>)
      ensures |r| == |Declared|
      ensures forall i :: 0 <= i < |Declared| ==> r[i] == Get(Declared[i])
    {
      [untouched, infected, recovered, deceased]
    }

    /** The row summed across its columns. */
    function Total(): nat
    {
      untouched + infected + recovered + deceased
    }

    /** The row with one more person in state `s`. */
    function Bump(s: PersonState): (c: Counts)
      ensures forall t :: c.Get(t) == Get(t) + (if t == s then 1 else 0)
    {
      match s
      case Untouched => this.(untouched := untouched + 1)
      case Infected => this.(infected := infected + 1)
      case Recovered => this.(recovered := recovered + 1)
      case Deceased => this.(deceased := deceased + 1)
    }
  }

  /** A row that agrees with another in every column is the same row. */
  lemma CountsByColumns(a: Counts, b: Counts)
    requires a.Get(Untouched) == b.Get(Untouched) && a.Get(Infected) == b.Get(Infected)
    requires a.Get(Recovered) == b.Get(Recovered) && a.Get(Deceased) == b.Get(Deceased)
    ensures a == b
  {
  }

  /** The zero row `fillna(0)` gives a hood that had nobody in any state. */
  const NoCounts := Counts(0, 0, 0, 0)

  /** A day table: one row per neighbourhood (the pivot's index). */
  type Table = map<HoodId, Counts>

  /** The neighbourhoods mentioned by a day's records. */
  function HoodsOf(records: seq<Record>): set<HoodId>
  {
    set r | r in records :: r.hood
  }

  /** Reference counts, record by record. */
  function CountHood(records: seq<Record>, h: HoodId): nat
    decreases |records|
  {
    if |records| == 0 then 0
    else CountHood(records[..|records| - 1], h) + (if records[|records| - 1].hood == h then 1 else 0)
  }

  function CountState(records: seq<Record>, s: PersonState): nat
    decreases |records|
  {
    if |records| == 0 then 0
    else CountState(records[..|records| - 1], s) + (if records[|records| - 1].state == s then 1 else 0)
  }

  /**
   * `groupby(["hood_id", "state"]).sum()` over a column of ones: the size of
   * every `(hood, state)` group that occurs.
   */
  function GroupSizes(records: seq<Record>): (g: map<Record, nat>)
    ensures forall r :: r in g <==> r in records
    ensures forall r :: r in g ==> g[r] == multiset(records)[r]
    decreases |records|
  {
    if |records| == 0 then map[]
    else
      var prefix := records[..|records| - 1];
      var last := records[|records| - 1];
      assert records == prefix + [last];
      var g := GroupSizes(prefix);
      g[last := (if last in g then g[last] else 0) + 1]
  }

  /** The group size of `(h, s)`, or the 0 that `fillna(0)` puts in a missing cell. */
  function Cell(g: map<Record, nat>, h: HoodId, s: PersonState): nat
  {
    if Record(h, s) in g then g[Record(h, s)] else 0
  }

  /**
   * `pivot(index="hood_id", columns="state")` followed by the reindex to the
   * four state columns and `fillna(0)`: a row per hood that has a group, every
   * column present.
   */
  function Pivot(g: map<Record, nat>): (t: Table)
    ensures t.Keys == set r | r in g :: r.hood
    ensures forall h, s :: h in t ==> t[h].Get(s) == Cell(g, h, s)
  {
    map h | h in (set r | r in g :: r.hood) ::
      Counts(Cell(g, h, Untouched), Cell(g, h, Infected), Cell(g, h, Recovered), Cell(g, h, Deceased))
  }

  /**
   * `add_day_results` minus the append: the table has a row for exactly the
   * hoods in the records, and each cell is the number of records with that
   * hood and state (0 where there are none).
   */
  function AddDayResults(records: seq<Record>): (t: Table)
    ensures t.Keys == HoodsOf(records)
    ensures forall h, s :: h in t ==> t[h].Get(s) == multiset(records)[Record(h, s)]
  {
    var g := GroupSizes(records);
    assert (set r | r in g :: r.hood) == HoodsOf(records);
    Pivot(g)
  }

  /** Record one more person in a table. */
  function Tally(t: Table, r: Record): (t': Table)
    ensures t'.Keys == t.Keys + {r.hood}
  {
    t[r.hood := (if r.hood in t then t[r.hood] else NoCounts).Bump(r.state)]
  }

  /** The straightforward count, one record at a time: the reference for the pandas chain. */
  function TallyAll(records: seq<Record>): Table
    decreases |records|
  {
    if |records| == 0 then map[] else Tally(TallyAll(records[..|records| - 1]), records[|records| - 1])
  }

  lemma MultiplicitySnoc(records: seq<Record>, r: Record, x: Record)
    ensures multiset(records + [r])[x] == multiset(records)[x] + (if x == r then 1 else 0)
  {
    assert multiset(records + [r]) == multiset(records) + multiset{r};
  }

  /** A hood without a row has no records at all. */
  lemma AbsentHoodHasNoRecords(records: seq<Record>, h: HoodId, s: PersonState)
    requires h !in HoodsOf(records)
    ensures multiset(records)[Record(h, s)] == 0
  {
  }

  lemma HoodsOfSnoc(records: seq<Record>, r: Record)
    ensures HoodsOf(records + [r]) == HoodsOf(records) + {r.hood}
  {
  }

  /** The record-by-record tally has a row per hood seen, holding that hood's count per state. */
  lemma {:induction false} TallyAllCounts(records: seq<Record>)
    ensures TallyAll(records).Keys == HoodsOf(records)
    ensures forall h, s :: h in TallyAll(records) ==> TallyAll(records)[h].Get(s) == multiset(records)[Record(h, s)]
    decreases |records|
  {
    if |records| > 0 {
      var prefix := records[..|records| - 1];
      var last := records[|records| - 1];
      assert records == prefix + [last];
      TallyAllCounts(prefix);
      HoodsOfSnoc(prefix, last);
      var t := TallyAll(records);
      forall h, s | h in t ensures t[h].Get(s) == multiset(records)[Record(h, s)] {
        MultiplicitySnoc(prefix, last, Record(h, s));
        if h !in TallyAll(prefix) {
          AbsentHoodHasNoRecords(prefix, h, s);
        }
      }
    }
  }

  /** The groupby/pivot/reindex/fillna chain counts exactly what the record-by-record tally counts. */
  lemma AddDayResultsIsTally(records: seq<Record>)
    ensures AddDayResults(records) == TallyAll(records)
  {
    var t1 := AddDayResults(records);
    var t2 := TallyAll(records);
    TallyAllCounts(records);
    forall h | h in t1 ensures t1[h] == t2[h] {
      CountsByColumns(t1[h], t2[h]);
    }
  }

  /** The multiplicities of a hood's four `(hood, state)` pairs add up to the hood's record count. */
  lemma {:induction false} HoodMultiplicities(records: seq<Record>, h: HoodId)
    ensures multiset(records)[Record(h, Untouched)] + multiset(records)[Record(h, Infected)]
          + multiset(records)[Record(h, Recovered)] + multiset(records)[Record(h, Deceased)]
         == CountHood(records, h)
    decreases |records|
  {
    if |records| > 0 {
      var prefix := records[..|records| - 1];
      var last := records[|records| - 1];
      assert records == prefix + [last];
      assert multiset(records) == multiset(prefix) + multiset{last};
      HoodMultiplicities(prefix, h);
      match last.state
      case Untouched =>
      case Infected =>
      case Recovered =>
      case Deceased =>
    }
  }

  /** A row sums to the number of that hood's records; a hood without a row has none. */
  lemma RowTotalIsHoodCount(records: seq<Record>, h: HoodId)
    ensures h in AddDayResults(records) ==> AddDayResults(records)[h].Total() == CountHood(records, h)
    ensures h !in AddDayResults(records) ==> CountHood(records, h) == 0
  {
    var t := AddDayResults(records);
    HoodMultiplicities(records, h);
    if h in t {
      assert t[h].Total() == t[h].Get(Untouched) + t[h].Get(Infected) + t[h].Get(Recovered) + t[h].Get(Deceased);
    } else {
      AbsentHoodHasNoRecords(records, h, Untouched);
      AbsentHoodHasNoRecords(records, h, Infected);
      AbsentHoodHasNoRecords(records, h, Recovered);
      AbsentHoodHasNoRecords(records, h, Deceased);
    }
  }

  /** Some hood in a non-empty set of hoods (the order of summation does not matter). */
  ghost function PickHood(hoods: set<HoodId>): (h: HoodId)
    requires hoods != {}
    ensures h in hoods
  {
    assert exists h :: h in hoods by {
      if forall h :: h !in hoods {
        assert false;
      }
    }
    var h :| h in hoods; h
  }

  /** The column `s` summed over the rows of `hoods`. */
  ghost function SumColumn(t: Table, hoods: set<HoodId>, s: PersonState): nat
    requires hoods <= t.Keys
    decreases hoods
  {
    if hoods == {} then 0
    else
      var h := PickHood(hoods);
      t[h].Get(s) + SumColumn(t, hoods - {h}, s)
  }

  /** `df[s].sum()`: the column `s` summed over every hood. */
  ghost function ColumnTotal(t: Table, s: PersonState): nat
  {
    SumColumn(t, t.Keys, s)
  }

  /** `df.sum(axis=0)`: the column totals of a day, as one row. */
  ghost function DayTotals(t: Table): Counts
  {
    Counts(ColumnTotal(t, Untouched), ColumnTotal(t, Infected), ColumnTotal(t, Recovered), ColumnTotal(t, Deceased))
  }

  /** Any row can be taken out of a column sum first. */
  lemma {:induction false} SumColumnRemove(t: Table, hoods: set<HoodId>, h: HoodId, s: PersonState)
    requires hoods <= t.Keys && h in hoods
    ensures SumColumn(t, hoods, s) == t[h].Get(s) + SumColumn(t, hoods - {h}, s)
    decreases hoods
  {
    var p := PickHood(hoods);
    if p != h {
      SumColumnRemove(t, hoods - {p}, h, s);
      SumColumnRemove(t, hoods - {h}, p, s);
      assert hoods - {p} - {h} == hoods - {h} - {p};
    }
  }

  /** A column sum only depends on the summed rows. */
  lemma {:induction false} SumColumnFrame(t: Table, t': Table, hoods: set<HoodId>, s: PersonState)
    requires hoods <= t.Keys && hoods <= t'.Keys
    requires forall h :: h in hoods ==> t[h].Get(s) == t'[h].Get(s)
    ensures SumColumn(t, hoods, s) == SumColumn(t', hoods, s)
    decreases hoods
  {
    if hoods != {} {
      var p := PickHood(hoods);
      SumColumnFrame(t, t', hoods - {p}, s);
    }
  }

  /** Tallying a record raises exactly its state's column total, by one. */
  lemma ColumnTotalTally(t: Table, r: Record, s: PersonState)
    ensures ColumnTotal(Tally(t, r), s) == ColumnTotal(t, s) + (if r.state == s then 1 else 0)
  {
    var t' := Tally(t, r);
    var h := r.hood;
    SumColumnRemove(t', t'.Keys, h, s);
    if h in t {
      assert t'.Keys == t.Keys;
      SumColumnRemove(t, t.Keys, h, s);
      SumColumnFrame(t, t', t.Keys - {h}, s);
    } else {
      assert t'.Keys - {h} == t.Keys;
      SumColumnFrame(t, t', t.Keys, s);
    }
  }

  /** The tally's column total for `s` is the number of records in state `s`. */
  lemma {:induction false} TallyColumnTotal(records: seq<Record>, s: PersonState)
    ensures ColumnTotal(TallyAll(records), s) == CountState(records, s)
    decreases |records|
  {
    if |records| > 0 {
      var prefix := records[..|records| - 1];
      TallyColumnTotal(prefix, s);
      ColumnTotalTally(TallyAll(prefix), records[|records| - 1], s);
    }
  }

  /** A day's column total for `s` is the number of that day's records in state `s`. */
  lemma ColumnTotalIsStateCount(records: seq<Record>, s: PersonState)
    ensures ColumnTotal(AddDayResults(records), s) == CountState(records, s)
  {
    AddDayResultsIsTally(records);
    TallyColumnTotal(records, s);
  }

  /** Every record is in exactly one state, so the state counts add up to the number of records. */
  lemma {:induction false} StateCountsCoverRecords(records: seq<Record>)
    ensures CountState(records, Untouched) + CountState(records, Infected)
          + CountState(records, Recovered) + CountState(records, Deceased) == |records|
    decreases |records|
  {
    if |records| > 0 {
      StateCountsCoverRecords(records[..|records| - 1]);
      match records[|records| - 1].state
      case Untouched =>
      case Infected =>
      case Recovered =>
      case Deceased =>
    }
  }

  /** Summed over all columns, a day's table counts every record exactly once. */
  lemma DayTotalsOfRecords(records: seq<Record>)
    ensures forall s :: DayTotals(AddDayResults(records)).Get(s) == CountState(records, s)
    ensures DayTotals(AddDayResults(records)).Total() == |records|
  {
    forall s ensures DayTotals(AddDayResults(records)).Get(s) == CountState(records, s) {
      ColumnTotalIsStateCount(records, s);
      match s
      case Untouched =>
      case Infected =>
      case Recovered =>
      case Deceased =>
    }
    StateCountsCoverRecords(records);
    var c := DayTotals(AddDayResults(records));
    assert c.Total() == c.Get(Untouched) + c.Get(Infected) + c.Get(Recovered) + c.Get(Deceased);
  }
}
