/**
 * `SimulationResultStorage`: results keyed by their `str`, and the names
 * `save` gives the per-run directory and its files.
 */
module Storage {
  import opened Wrappers
  import opened SimResult
  import Text
  import Decimal

  /** `self.results`: label to result. */
  type Storage = map<string, SimulationResult>

  /** `add`: stores the result under its label, replacing whatever was stored there. */
  function Add(st: Storage, r: SimulationResult): (st': Storage)
    ensures st'.Keys == st.Keys + {Str(r)}
    ensures st'[Str(r)] == r
    ensures forall k :: k in st && k != Str(r) ==> st'[k] == st[k]
  {
    st[Str(r) := r]
  }

  /** `__getitem__`: the stored result, or a miss where Python raises `KeyError`. */
  function Get(st: Storage, key: string): (r: Option<SimulationResult>)
    ensures r.Some? <==> key in st
    ensures r.Some? ==> r.value == st[key]
  {
    if key in st then Some(st[key]) else None
  }

  /** Every key is the label of the result stored under it, as `add` keeps it. */
  ghost predicate WellKeyed(st: Storage)
  {
    forall k :: k in st ==> k == Str(st[k])
  }

  lemma AddKeepsWellKeyed(st: Storage, r: SimulationResult)
    requires WellKeyed(st)
    ensures WellKeyed(Add(st, r))
  {
  }

  /** A second result with the same day count and intervention days replaces the first. */
  lemma AddSameConfigReplaces(st: Storage, a: SimulationResult, b: SimulationResult)
    requires ConfigOf(a) == ConfigOf(b)
    ensures Add(Add(st, a), b) == Add(st, b)
    ensures Get(Add(Add(st, a), b), Str(a)) == Some(b)
  {
    StrIdentifiesConfig(a, b);
  }

  /** A result with another configuration is stored beside the first, which stays retrievable. */
  lemma AddOtherConfigKeeps(st: Storage, a: SimulationResult, b: SimulationResult)
    requires ConfigOf(a) != ConfigOf(b)
    ensures Get(Add(Add(st, a), b), Str(a)) == Some(a)
    ensures Get(Add(Add(st, a), b), Str(b)) == Some(b)
  {
    StrIdentifiesConfig(a, b);
  }

  /** `result_key.replace(" ", "")`: the directory a run is saved in. */
  function SaveDirName(key: string): (dir: string)
    ensures ' ' !in dir
  {
    NoSpaceLeft(key);
    Text.Replace(key, " ", "")
  }

  /** Dropping every space leaves none, and keeps the other characters. */
  lemma {:induction false} NoSpaceLeft(s: string)
    ensures ' ' !in Text.Replace(s, " ", "")
    ensures |Text.Replace(s, " ", "")| <= |s|
    decreases |s|
  {
    if |s| > 0 {
      NoSpaceLeft(s[1..]);
      if !(" " <= s) {
        assert s[0] != ' ';
      }
    }
  }

  /** Removing spaces from a label whose only spaces sit in its separators. */
  lemma StripSeparatorSpaces(head: string, n: string, sep: string, sep': string, tr: string,
                             trLabel: string, sdLabel: string, sd: string, tail: string)
    requires ' ' !in head && ' ' !in n && ' ' !in trLabel && ' ' !in tr
    requires ' ' !in sdLabel && ' ' !in sd && ' ' !in tail
    requires Text.Replace(sep, " ", "") == sep'
    ensures Text.Replace(head + n + (sep + trLabel + tr + (sep + sdLabel + sd + tail)), " ", "")
         == head + n + (sep' + trLabel + tr + (sep' + sdLabel + sd + tail))
  {
    var inner := sep + sdLabel + sd + tail;
    Text.ReplaceCharDistributes(sep + sdLabel + sd, tail, ' ', "");
    Text.ReplaceCharDistributes(sep + sdLabel, sd, ' ', "");
    Text.ReplaceCharDistributes(sep, sdLabel, ' ', "");
    Text.ReplaceAbsentChar(sdLabel, ' ', "");
    Text.ReplaceAbsentChar(sd, ' ', "");
    Text.ReplaceAbsentChar(tail, ' ', "");
    var middle := sep + trLabel + tr + inner;
    Text.ReplaceCharDistributes(sep + trLabel + tr, inner, ' ', "");
    Text.ReplaceCharDistributes(sep + trLabel, tr, ' ', "");
    Text.ReplaceCharDistributes(sep, trLabel, ' ', "");
    Text.ReplaceAbsentChar(trLabel, ' ', "");
    Text.ReplaceAbsentChar(tr, ' ', "");
    Text.ReplaceCharDistributes(head + n, middle, ' ', "");
    Text.ReplaceCharDistributes(head, n, ' ', "");
    Text.ReplaceAbsentChar(head, ' ', "");
    Text.ReplaceAbsentChar(n, ' ', "");
  }

  lemma LabelWordsHaveNoBlank()
    ensures ' ' !in "SimulationResult(n_days=" && ' ' !in "tr_day=" && ' ' !in "sd_day=" && ' ' !in ")"
  {
  }

  lemma CommaBlankRemoved()
    ensures Text.Replace(", ", " ", "") == ","
  {
    assert ", "[0] != " "[0];
    assert ", "[1..] == " ";
    assert " " <= " ";
    assert " "[1..] == "";
  }

  /** A run's directory is its label with the blank after each comma removed. */
  lemma SaveDirNameOfResult(r: SimulationResult)
    ensures SaveDirName(Str(r)) ==
      Render(",", Decimal.IntToString(r.nDays), DayText(r.travelRestrictionDay), DayText(r.socialDistancingDay))
  {
    var n := Decimal.IntToString(r.nDays);
    assert DayText(Some(r.nDays)) == n;
    LabelWordsHaveNoBlank();
    CommaBlankRemoved();
    StripSeparatorSpaces("SimulationResult(n_days=", n, ", ", ",", DayText(r.travelRestrictionDay),
                         "tr_day=", "sd_day=", DayText(r.socialDistancingDay), ")");
  }

  /** Distinct stored runs are saved in distinct directories: no run's files overwrite another's. */
  lemma SaveDirsDistinct(st: Storage, k1: string, k2: string)
    requires WellKeyed(st) && k1 in st && k2 in st && k1 != k2
    ensures SaveDirName(k1) != SaveDirName(k2)
  {
    var a := st[k1];
    var b := st[k2];
    SaveDirNameOfResult(a);
    SaveDirNameOfResult(b);
    if SaveDirName(k1) == SaveDirName(k2) {
      RenderInjective(",", Decimal.IntToString(a.nDays), DayText(a.travelRestrictionDay), DayText(a.socialDistancingDay),
                           Decimal.IntToString(b.nDays), DayText(b.travelRestrictionDay), DayText(b.socialDistancingDay));
      Decimal.IntToStringInjective(a.nDays, b.nDays);
      DayTextInjective(a.travelRestrictionDay, b.travelRestrictionDay);
      DayTextInjective(a.socialDistancingDay, b.socialDistancingDay);
      StrIdentifiesConfig(a, b);
    }
  }

  /** The file `save` writes the per-day totals to. */
  const OverallCountsFile := "overall-counts.csv"

  /** `f"daily_counts_per_hood-day{day:03d}.csv"`: day `day`'s table. */
  function DayFileName(day: nat): (name: string)
    ensures |name| > 0 && name[0] == 'd'
  {
    "daily_counts_per_hood-day" + Decimal.ZeroPadded(day, 3) + ".csv"
  }

  /** A common prefix and suffix can be taken off both sides. */
  lemma CancelAffixes(p: string, x: string, y: string, q: string)
    requires p + x + q == p + y + q
    ensures x == y
  {
    assert |x| == |y|;
    assert x == (p + x + q)[|p|..|p| + |x|];
    assert y == (p + y + q)[|p|..|p| + |y|];
  }

  /** Different days get different file names, none of them the overall file. */
  lemma DayFileNamesDistinct(d1: nat, d2: nat)
    ensures DayFileName(d1) == DayFileName(d2) <==> d1 == d2
    ensures DayFileName(d1) != OverallCountsFile
  {
    if DayFileName(d1) == DayFileName(d2) {
      CancelAffixes("daily_counts_per_hood-day", Decimal.ZeroPadded(d1, 3), Decimal.ZeroPadded(d2, 3), ".csv");
      Decimal.ZeroPaddedInjective(d1, d2, 3);
    }
    assert OverallCountsFile[0] == 'o';
  }

  /** The files `save` writes into a run's directory: the overall table, then one per recorded day. */
  function SaveFiles(r: SimulationResult): (files: seq<string>)
    ensures |files| == |r.dailyCountsPerHood| + 1
    ensures files[0] == OverallCountsFile
    ensures forall d :: 0 <= d < |r.dailyCountsPerHood| ==> files[d + 1] == DayFileName(d)
  {
    [OverallCountsFile] + seq(|r.dailyCountsPerHood|, d requires 0 <= d => DayFileName(d))
  }

  lemma SaveFileNamesDiffer(r: SimulationResult, i: nat, j: nat)
    requires i < j < |SaveFiles(r)|
    ensures SaveFiles(r)[i] != SaveFiles(r)[j]
  {
    var files := SaveFiles(r);
    assert files[j] == DayFileName(j - 1);
    if i == 0 {
      assert files[i] == OverallCountsFile;
      DayFileNamesDistinct(j - 1, j - 1);
    } else {
      assert files[i] == DayFileName(i - 1);
      DayFileNamesDistinct(i - 1, j - 1);
    }
  }

  /** No two of a run's saved files share a name. */
  lemma SaveFilesDistinct(r: SimulationResult)
    ensures forall i, j :: 0 <= i < j < |SaveFiles(r)| ==> SaveFiles(r)[i] != SaveFiles(r)[j]
  {
    forall i, j | 0 <= i < j < |SaveFiles(r)| ensures SaveFiles(r)[i] != SaveFiles(r)[j] {
      SaveFileNamesDiffer(r, i, j);
    }
  }
}
