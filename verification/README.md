# Simulation reporting and notebook-to-blog, modelled in Dafny

This project models two small pieces of one repository.

The first is the reporting side of a Covid-19 spread simulation:
- `PersonState`, the four-variant enum of a person's health state;
- `SimulationResult`, which collects one per-neighbourhood count table per simulated day (`add_day_results`) and derives the headline numbers from them (`finalize`, `_determine_overall_counts`);
- its `__str__` label;
- `SimulationResultStorage`, a dictionary keyed by that label, together with the directory and file names that `save` builds.

The second is the notebook-to-blog tool. It checks that its argument is a `.ipynb` file and derives the post's file name and two destination directories. It creates the directories and aborts if the asset directory already exists. It runs the converter and aborts on a non-zero return code. It then moves the converter's markdown and image directory into place and rewrites image links in the post.

Both are written as immutable datatypes and pure functions:

- `State` holds the enum, its `auto()` values and the string labels the day table uses.
- `DayTable` holds the day table: a map from neighbourhood to a four-column row. It is built from `(hood_id, state)` records, and a record-by-record tally serves as its reference definition. The column sums are `ghost`, because summing over a map needs a choice of order.
- `SimResult` holds the result record, the one-shot `finalize` (a `Result`, failing on no recorded day) and `__str__`.
- `Storage` holds the label-keyed store and the save names.
- `Decimal` and `Text` model `str(int)`, `{:03d}`, `str.replace`, `str.split` and a separator join.
- `Paths` models the part of `pathlib.PurePosixPath` the tool uses: parsing, `/`, `name`, `parent`, `suffixes` and `stem`.
- `NbToBlog` models the tool's pipeline. The file system is the set of existing paths. The converter is an oracle: its return code, the paths it produces, and the markdown text it writes. Every side effect is recorded in a trace instead of being performed, and the run ends in `Completed`, `Exit(code)` or `Raised(error)`.

The model follows the code as it stands. The post is named after the notebook's directory with no date prefix. There is one literal `str.replace` of `<stem>_files`. There is no copy of a separate image folder and no removal of junk lines. The move of `<stem>_files` is unconditional, so a notebook without images ends in `FileNotFoundError`.

Defects in the source that the model records but does not reproduce:
- `results.py` imports `.state` from its own package directory, while the enum lives in a directory spelled `covid19-simulation`. The model treats that enum as the one in use.
- `__init__` sets `peak_affected` to `None`, but `finalize` assigns `peak_infected`. The model has one field, `peakInfected`, which holds what `finalize` computes.
- `save` uses `Path` without importing it. Only the names `save` builds are modelled.
- `_rewrite_png_links` reads `path_notebook`, which is not in its scope, and never uses its `asset_path_dir` parameter. See "## Findings".

## Model

| member | source | states |
|---|---|---|
| State.Value | covid19-simulation/lib/state.py:4-8 | `auto()` gives each variant a value from 1 to 4, namely its position in the declaration order untouched, infected, recovered, deceased |
| State.FromValue | covid19-simulation/lib/state.py:4-8 | looking a variant up by value succeeds exactly for 1 to 4 and inverts `Value` |
| State.ValuesFollowDeclarationOrder | covid19-simulation/lib/state.py:5-8 | the values are 1, 2, 3, 4 in declaration order, strictly increasing and therefore distinct |
| State.ValueRoundTrip | covid19-simulation/lib/state.py:5-8 | looking up a variant's own value gives the variant back |
| State.All | covid19-simulation/lib/state.py:10-12 | `all()` contains every declared variant and has exactly four elements |
| State.DeclaredIsExhaustive | covid19-simulation/lib/state.py:12 | every `PersonState` is declared exactly once and belongs to `all()`, so the enum has four members |
| State.FromLabel | covid-19-simulation/lib/results.py:42-47 | the rename maps a column label back to the state whose `str` it is, and it finds the state for every such label |
| State.Label | covid-19-simulation/lib/results.py:26 | `str(state)`, the column label before the pivot. It has no contract of its own: `State.LabelRoundTrip` and `State.FromLabel` say the four labels are distinct and renamed back correctly |
| State.LabelRoundTrip | covid-19-simulation/lib/results.py:26-47 | mapping the state column to `str` and renaming it back loses nothing, because the four labels are distinct |
| DayTable.Counts.Cells | covid-19-simulation/lib/results.py:36-39 | a row has exactly four columns, column i holding the count of the i-th declared state |
| DayTable.Counts.Bump | covid-19-simulation/lib/results.py:27-30 | one more person in state s raises column s by one and leaves the other columns alone |
| DayTable.GroupSizes | covid-19-simulation/lib/results.py:27-31 | the groupby-sum over a column of ones has a group for exactly the (hood, state) pairs present, sized by their multiplicity |
| DayTable.Pivot | covid-19-simulation/lib/results.py:32-40 | the pivot, reindex and fillna give a row per grouped hood with all four columns, 0 where a group is missing |
| DayTable.AddDayResults | covid-19-simulation/lib/results.py:22-48 | the table has a row for exactly the hoods in the records, and each cell counts the records with that hood and state, 0 where there are none |
| DayTable.TallyAllCounts | covid-19-simulation/lib/results.py:23-40 | the reference tally, built one record at a time, has the same rows and cell counts |
| DayTable.AddDayResultsIsTally | covid-19-simulation/lib/results.py:23-47 | the pandas chain and the record-by-record tally build the same table |
| DayTable.AbsentHoodHasNoRecords | covid-19-simulation/lib/results.py:29-32 | a hood without a row has no records in any state |
| DayTable.RowTotalIsHoodCount | covid-19-simulation/lib/results.py:23-40 | a row sums to the number of that hood's records, and a hood without a row has none |
| DayTable.ColumnTotalIsStateCount | covid-19-simulation/lib/results.py:59 | a day's column sum for a state is the number of that day's records in that state |
| DayTable.StateCountsCoverRecords | covid-19-simulation/lib/results.py:71 | the four state counts of a day add up to its number of records |
| DayTable.DayTotalsOfRecords | covid-19-simulation/lib/results.py:71 | `df.sum(axis=0)` holds each state's record count, and its grand total is the number of records |
| DayTable.DayTotals | covid-19-simulation/lib/results.py:53-71 | `df.sum(axis=0)`, the column sums of a day as one row. It has no contract of its own: `DayTable.DayTotalsOfRecords` says what each sum counts |
| SimResult.New | covid-19-simulation/lib/results.py:8-20 | a new result keeps its four parameters, has no recorded day and is not finalized |
| SimResult.AddDay | covid-19-simulation/lib/results.py:50 | `add_day_results` appends exactly one table, the one built from the day's records, and changes nothing else |
| SimResult.AddDayExtendsBuild | covid-19-simulation/lib/results.py:22-50 | a result built from a sequence of record batches, with one more day added, is built from that sequence plus the new batch |
| SimResult.PeakOf | covid-19-simulation/lib/results.py:57-61 | the running maximum from 0 bounds every daily total and is either 0 or one of the totals |
| SimResult.PeakIsLeastBound | covid-19-simulation/lib/results.py:57-63 | no smaller non-negative number bounds all daily totals |
| SimResult.InfectedTotals | covid-19-simulation/lib/results.py:58-59 | one infected total per recorded day, each that day's infected column sum |
| SimResult.OverallCounts | covid-19-simulation/lib/results.py:67-75 | one row per recorded day, indexed 0 to n-1, row d being the column sums of day d |
| SimResult.Finalize | covid-19-simulation/lib/results.py:52-65 | fails exactly when no day is recorded. Otherwise it keeps the days and parameters and sets: deceased to the last day's deceased sum; affected to population minus the last day's untouched sum; the peak to the least bound of the daily infected sums, either 0 or attained on some day; the per-day totals |
| SimResult.FinalizeIdempotent | covid-19-simulation/lib/results.py:52-65 | finalizing a finalized result again gives the same result |
| SimResult.FinalizeCountsRecords | covid-19-simulation/lib/results.py:53-75 | in terms of the people: the summary counts last-day records that are deceased or untouched, bounds every day's infected records by the peak, and counts each day's records per state and in total |
| SimResult.LastDayCountsRecords | covid-19-simulation/lib/results.py:53-55 | the deceased count is the number of last-day records in state deceased, and the affected count is the population minus the last-day untouched records |
| SimResult.PeakCountsRecords | covid-19-simulation/lib/results.py:57-63 | the peak bounds every day's number of infected records and is 0 or one of them |
| SimResult.OverallCountsRecords | covid-19-simulation/lib/results.py:67-75 | overall row d holds day d's record count per state and in total |
| SimResult.AffectedIsEveryoneTouched | covid-19-simulation/lib/results.py:55 | when the last day lists the whole population, the affected count is the number infected, recovered or deceased, between 0 and the population |
| SimResult.DayText | covid-19-simulation/lib/results.py:127-128 | `str` of an intervention day contains no comma and no blank |
| SimResult.DayTextInjective | covid-19-simulation/lib/results.py:127-128 | different intervention days, or a day and `None`, render differently |
| SimResult.RenderInjective | covid-19-simulation/lib/results.py:125-128 | with comma-free fields the label can be read back into its three fields |
| SimResult.Str | covid-19-simulation/lib/results.py:125-128 | `__str__`, `SimulationResult(n_days=…, tr_day=…, sd_day=…)`. It has no contract of its own: `SimResult.StrIdentifiesConfig` says two labels are equal exactly when the configurations are |
| SimResult.StrIdentifiesConfig | covid-19-simulation/lib/results.py:125-128 | two results have the same label if and only if they agree on day count and both intervention days |
| Decimal.NatToString | covid-19-simulation/lib/results.py:127 | `str(n)` is a non-empty digit string without a leading zero that denotes n |
| Decimal.IntToString | covid-19-simulation/lib/results.py:127 | `str(i)` starts with a minus sign exactly for negative i |
| Decimal.IntToStringRoundTrip | covid-19-simulation/lib/results.py:127 | reading `str(i)` back gives i |
| Decimal.IntToStringInjective | covid-19-simulation/lib/results.py:127 | distinct integers render as distinct strings |
| Decimal.ZeroPadded | covid-19-simulation/lib/results.py:152 | `{n:0wd}` is a digit string of length max(w, digits of n) that denotes n |
| Decimal.ZeroPaddedInjective | covid-19-simulation/lib/results.py:152 | distinct day numbers get distinct padded labels |
| Decimal.ThreeDigitsBelowThousand | covid-19-simulation/lib/results.py:152 | a day below 1000 pads to exactly three characters |
| Storage.Add | covid-19-simulation/lib/results.py:138-139 | `add` stores the result under its label, replacing only that entry |
| Storage.Get | covid-19-simulation/lib/results.py:154-155 | `__getitem__` finds exactly the stored keys, where Python would otherwise raise `KeyError` |
| Storage.AddKeepsWellKeyed | covid-19-simulation/lib/results.py:138-139 | after `add`, every key is still the label of the result stored under it |
| Storage.AddSameConfigReplaces | covid-19-simulation/lib/results.py:138-139 | a second result with the same day count and intervention days replaces the first |
| Storage.AddOtherConfigKeeps | covid-19-simulation/lib/results.py:138-139 | a result with another configuration is stored beside the first, which stays retrievable |
| Storage.SaveDirName | covid-19-simulation/lib/results.py:147 | the save directory name contains no blank |
| Storage.NoSpaceLeft | covid-19-simulation/lib/results.py:147 | `replace(" ", "")` leaves no blank and never lengthens the text |
| Storage.SaveDirNameOfResult | covid-19-simulation/lib/results.py:147 | a run's directory is its label with the blank after each comma removed |
| Storage.SaveDirsDistinct | covid-19-simulation/lib/results.py:146-147 | distinct stored runs are saved in distinct directories |
| Storage.DayFileName | covid-19-simulation/lib/results.py:152 | `daily_counts_per_hood-day{day:03d}.csv`, a non-empty name starting with `d`, so it is never `overall-counts.csv`. `Storage.DayFileNamesDistinct` says distinct days get distinct names |
| Storage.DayFileNamesDistinct | covid-19-simulation/lib/results.py:150-152 | two days get the same file name exactly when they are the same day, and no day's file is the overall-counts file |
| Storage.SaveFiles | covid-19-simulation/lib/results.py:150-152 | the names `save` would write in a run's directory: the overall-counts file, then one file per recorded day in order |
| Storage.SaveFilesDistinct | covid-19-simulation/lib/results.py:150-152 | no two files written for one run share a name |
| Text.Replace | _nb_to_blog_tool/nb-to-blog.py:44 | `str.replace`, scanning left to right and replacing non-overlapping matches (also used for results.py:147). It has no contract of its own: `Text.ReplaceIsJoinOfSplit`, `Text.SplitJoinRoundTrip` and `Text.SplitPiecesAvoidPattern` tie it to `split` and `join`, `Text.ReplaceWithoutMatch` to text without a match, and `Text.ReplaceAtFirstMatch` to the leftmost match |
| Text.ReplaceWithoutMatch | _nb_to_blog_tool/nb-to-blog.py:44 | text with no occurrence of the pattern is returned unchanged by `str.replace` |
| Text.ReplaceIsJoinOfSplit | _nb_to_blog_tool/nb-to-blog.py:44 | `s.replace(p, r)` equals `r.join(s.split(p))` |
| Text.SplitJoinRoundTrip | _nb_to_blog_tool/nb-to-blog.py:44 | joining the pieces of a split with the pattern rebuilds the text |
| Text.SplitPiecesAvoidPattern | _nb_to_blog_tool/nb-to-blog.py:44 | no piece of a split contains the pattern, so every occurrence is replaced |
| Text.ReplaceAtFirstMatch | _nb_to_blog_tool/nb-to-blog.py:44 | `str.replace` keeps the text before the leftmost occurrence, replaces that occurrence, and resumes after it, so an occurrence overlapping it is not replaced |
| Text.SplitAtFirstMatch | _nb_to_blog_tool/nb-to-blog.py:44 | the first piece of `str.split` is the text before the leftmost occurrence, and the rest is the split of the text after it |
| Paths.Parse | _nb_to_blog_tool/nb-to-blog.py:53 | `Path(s)` is rooted exactly when s starts with a slash, and its components are non-empty, not `.` and slash-free |
| Paths.ParseFormatRoundTrip | _nb_to_blog_tool/nb-to-blog.py:53 | parsing the string of a path gives the path back |
| Paths.JoinComponent | _nb_to_blog_tool/nb-to-blog.py:14 | `p / c` for a plain component c appends c, its `name` is c and its `parent` is p |
| Paths.JoinRelative | _nb_to_blog_tool/nb-to-blog.py:16 | `p / "a/b/c"` appends the three components |
| Paths.NameAndParentOfValid | _nb_to_blog_tool/nb-to-blog.py:56 | a path's `name` is empty or a plain component, and its `parent` is a well-formed path |
| Paths.Suffixes | _nb_to_blog_tool/nb-to-blog.py:54 | `suffixes`, the pieces after the dots of the name without its leading dots, each with its dot, and none for a name ending in a dot. It has no contract of its own: `Paths.SuffixesAreDotted`, `Paths.OnlySuffix` and `Paths.NotebookSuffixes` state its behaviour |
| Paths.SuffixesAreDotted | _nb_to_blog_tool/nb-to-blog.py:54 | every suffix is a dot followed by text without a dot |
| Paths.Stem | _nb_to_blog_tool/nb-to-blog.py:34 | `stem` is a prefix of the name. The name is cut exactly when its last dot is neither its first nor its last character, and then the cut is at that dot |
| Paths.OnlySuffix | _nb_to_blog_tool/nb-to-blog.py:54 | `suffixes == ["." + ext]` holds exactly when the name, after its leading dots, is a dot-free base, one dot and ext |
| Paths.NotebookSuffixes | _nb_to_blog_tool/nb-to-blog.py:54-55 | the suffix check passes exactly for names of the form base + ".ipynb" with a dot-free base after leading dots |
| Paths.ExtraSuffixRejected | _nb_to_blog_tool/nb-to-blog.py:54-55 | a name with a second suffix before `.ipynb` fails the check |
| Paths.TarNotebookRejected | _nb_to_blog_tool/nb-to-blog.py:54-55 | `x.tar.ipynb` fails the suffix check |
| Paths.NotebookStem | _nb_to_blog_tool/nb-to-blog.py:34-35 | an accepted notebook name is its stem followed by `.ipynb` |
| Paths.MarkdownStem | _nb_to_blog_tool/nb-to-blog.py:56 | the stem of `d + ".md"` is d exactly when d is non-empty |
| NbToBlog.PostFilename | _nb_to_blog_tool/nb-to-blog.py:56 | `path_notebook.parent.name + ".md"`. It has no contract of its own: `Paths.MarkdownStem` and `NbToBlog.AssetDirNamedAfterPost` relate it to the asset directory |
| NbToBlog.DestinationDirs | _nb_to_blog_tool/nb-to-blog.py:13-17 | the posts and asset directories, built from components. It has no contract of its own: `NbToBlog.DestinationDirsByJoin` says they are the source's `/` joins |
| NbToBlog.DestinationDirsByJoin | _nb_to_blog_tool/nb-to-blog.py:13-17 | the two destination directories are the `/` joins `parent/_output/_posts` and `parent/_output/assets/img/blog/<dir name>` |
| NbToBlog.AssetDirNamedAfterPost | _nb_to_blog_tool/nb-to-blog.py:56 | the asset directory's last component is the post file name's stem exactly when the notebook's directory has a name |
| NbToBlog.LayoutDirsApart | _nb_to_blog_tool/nb-to-blog.py:14-16 | the posts and asset directories are distinct and neither lies inside the other |
| NbToBlog.AssetDirSeenAsBefore | _nb_to_blog_tool/nb-to-blog.py:15-17 | the two `mkdir` calls never create the asset directory itself |
| NbToBlog.AssetCheckSeesPriorState | _nb_to_blog_tool/nb-to-blog.py:15-18 | the existence check finds the asset directory exactly when it existed before the run or the notebook's directory is `..`. In that case the asset path ends in `..` and resolves to the parent of the directory line 17 has just made |
| NbToBlog.OutputsDistinct | _nb_to_blog_tool/nb-to-blog.py:34-35 | the image directory is neither the markdown output nor the post path |
| NbToBlog.MarkdownSeenAsBefore | _nb_to_blog_tool/nb-to-blog.py:15-17 | the `mkdir` calls do not create `<stem>.md` next to the notebook |
| NbToBlog.ImagesSeenAsBefore | _nb_to_blog_tool/nb-to-blog.py:15-17 | the `mkdir` calls do not create `<stem>_files` next to the notebook |
| NbToBlog.RelocateOutcome | _nb_to_blog_tool/nb-to-blog.py:52-62 | an accepted run up to the moves is the `mkdir` calls followed by the reference run `StagedFrom`, every check read off the paths existing beforehand plus the converter's products |
| NbToBlog.RunOn | _nb_to_blog_tool/nb-to-blog.py:52-64 | `main` on a parsed path, with the stem passed to the rewrite and links still aimed at `/assets/img/blog` as line 44 writes them. It has no contract of its own: the run lemmas below (`NbToBlog.RunOutcome`, `NbToBlog.CompletesExactly` and the rest) state its behaviour |
| NbToBlog.RunToAssets | _nb_to_blog_tool/nb-to-blog.py:38-47 | `main` with links also aimed at the post's asset directory. It has no contract of its own: `NbToBlog.AssetLinksChangeOnlyThePost` relates it to `NbToBlog.RunOn` |
| NbToBlog.AssetLinksChangeOnlyThePost | _nb_to_blog_tool/nb-to-blog.py:44-47 | aiming the links at the asset directory changes only the written post. The outcome is the same, and a completed run makes the same directories, conversion and moves before writing the post |
| NbToBlog.Run | _nb_to_blog_tool/nb-to-blog.py:52-53 | `main` on the argument string, `Path(path_notebook)` first. It has no contract of its own: `NbToBlog.AsWrittenNeverRewrites` compares it with the code as written |
| NbToBlog.RunAsWritten | _nb_to_blog_tool/nb-to-blog.py:38-39 | `main` as written, ending in `NameError` once the moves are done. It has no contract of its own: `NbToBlog.AsWrittenNeverRewrites` states its behaviour |
| NbToBlog.RunOutcome | _nb_to_blog_tool/nb-to-blog.py:52-64 | an accepted run is the `mkdir` calls, the reference run, and the post write if that completes |
| NbToBlog.RejectsOtherSuffixes | _nb_to_blog_tool/nb-to-blog.py:54-55 | a run raises `ValueError` exactly when the suffix list is not `[".ipynb"]`, and then does nothing |
| NbToBlog.ExistingAssetDirAborts | _nb_to_blog_tool/nb-to-blog.py:16-20 | an accepted run exits with code 1 right after the `mkdir` calls exactly when the asset directory already exists or the notebook's directory is `..` |
| NbToBlog.ConverterRunsNext | _nb_to_blog_tool/nb-to-blog.py:58-60 | with a new asset directory and a notebook directory other than `..`, the converter call comes right after the two `mkdir` calls |
| NbToBlog.ConverterFailureExits | _nb_to_blog_tool/nb-to-blog.py:28-30 | a non-zero return code ends the run with `exit(1)` right after the converter call |
| NbToBlog.MissingOutputRaises | _nb_to_blog_tool/nb-to-blog.py:33-35 | a missing `<stem>.md` raises `FileNotFoundError` before any move. A missing `<stem>_files` raises it after the markdown has become the post |
| NbToBlog.CompletesExactly | _nb_to_blog_tool/nb-to-blog.py:52-64 | a run completes exactly when the suffix check passes, the asset directory is new, the notebook's directory is not `..`, the converter succeeds and both outputs exist. It then makes the two directories, converts, moves the markdown and the images, and writes the post, in that order |
| NbToBlog.ExitMovesNothing | _nb_to_blog_tool/nb-to-blog.py:18-30 | every `exit` has code 1 and comes before any move or write |
| NbToBlog.CompletedEndsWithImagesAndPost | _nb_to_blog_tool/nb-to-blog.py:54-64 | a completed run was given a `.ipynb` name and ends by moving the images and writing the post |
| NbToBlog.RetryAborts | _nb_to_blog_tool/nb-to-blog.py:18-20 | once a run has completed and its effects are in place, running again on the same notebook exits after the `mkdir` calls |
| NbToBlog.AsWrittenNeverRewrites | _nb_to_blog_tool/nb-to-blog.py:38-39 | as written, every run that gets past the moves ends in `NameError` without writing the post; other runs behave as corrected |
| NbToBlog.RewritePngLinks | _nb_to_blog_tool/nb-to-blog.py:38-47 | the rewrite as written: `<stem>_files` becomes `/assets/img/blog`. It has no contract of its own: `NbToBlog.RewriteIsSplitJoin`, `NbToBlog.RewriteWithoutLinks` and `NbToBlog.AsWrittenLinkMissesAsset` state its behaviour |
| NbToBlog.RewritePngLinksToAssets | _nb_to_blog_tool/nb-to-blog.py:38-47 | the corrected rewrite: `<stem>_files` becomes the post's asset directory. It has no contract of its own: `NbToBlog.LinkReachesAsset` says the links reach the moved images |
| NbToBlog.RewriteIsSplitJoin | _nb_to_blog_tool/nb-to-blog.py:44 | the rewrite splits the text at every `<stem>_files` and joins the pieces with the link target |
| NbToBlog.RewriteWithoutLinks | _nb_to_blog_tool/nb-to-blog.py:44 | a post without `<stem>_files`, such as one with no image, is left unchanged by either rewrite |
| NbToBlog.RewriteLoneLink | _nb_to_blog_tool/nb-to-blog.py:44 | a converter link `<stem>_files/<file>` keeps its file name, and only its directory part is replaced |
| NbToBlog.AsWrittenLinkMissesAsset | _nb_to_blog_tool/nb-to-blog.py:44 | as written, a converter link becomes `/assets/img/blog/<file>`, which resolves to the moved image exactly when the notebook's directory has no name |
| NbToBlog.LinkReachesAsset | _nb_to_blog_tool/nb-to-blog.py:38-44 | with the asset directory in the target, every converter link resolves to the moved image file |

## Left out

- Plotting (`plot_count_curves`, results.py:98-123) and `print_summary` (results.py:89-96): console and matplotlib output.
- The percentage properties (results.py:77-87): floating-point division.
- CSV writing and `mkdir` in `SimulationResultStorage.save` (results.py:144-152): file I/O. Only the directory and file names are modelled.
- Storage.SaveFiles: gives the names `save` would write, not what it does. As written, `save` raises `NameError` at results.py:145 because `Path` is never imported (results.py:1-4). Even with the import, a result that was never finalized has `overall_counts` of `None` (results.py:16), so `.to_csv` at results.py:150 raises `AttributeError` before any day file is written. Neither error is modelled.
- `SimulationResultStorage.keys` and `__str__`/`__repr__` (results.py:141-142, 157-162): the key set is the map's domain. The printed listing depends on dictionary insertion order, which a `map` does not keep.
- `SimulationResult.__repr__` (results.py:130-131): it returns `__str__`, which is modelled.
- SimResult.Finalize: the summary is `ghost`, because column sums over a map need a choice of summation order. The float-to-`int` casts are identities on the integer counts modelled here.
- Column types after `fillna(0)` (results.py:32-40): the pivot builds one array of one type, so if any (hood, state) group is missing, every column holds floats. A state absent that day adds a float column in the reindex. Only a day on which every hood has every state keeps integers. The model counts with `nat`, which agrees with `int(...)` on every count the code produces.
- Intervention days are `Option<int>`. Other Python values passed to the constructor, such as floats, are not modelled.
- The click wiring and its `exists=True` check on the argument (nb-to-blog.py:50-52, 66-67): the model starts from the argument string.
- The `print` warnings before each `exit` (nb-to-blog.py:19, 29): console output.
- The converter subprocess (nb-to-blog.py:26-27) is an oracle: its return code, the set of paths it produces, and the text of the markdown it writes. A trace effect records the call.
- `shutil.move` is modelled as a rename of one path. Moving the contents of a directory and moving into an existing directory are not modelled.
- The read and write of the post (nb-to-blog.py:41-47) are one `WriteFile` effect whose contents are the rewritten converter text.
- Paths: only POSIX paths are modelled. A leading `//` and symbolic links are not modelled. `..` stays a plain component, as in `pathlib`. The existence check at nb-to-blog.py:18 resolves a trailing `..` (`x/..` exists exactly when `x` does). A `..` elsewhere in a path is compared as written. This is exact when the set of existing paths lists each path under the spelling the run uses. A notebook given as `x/../post/nb.ipynb` makes the run spell the asset directory with `x/..`. That run is modelled faithfully only when the existing paths are listed under that spelling. The `suffixes` rule for names ending in a dot is that of Python 3.8 to 3.12.
- `_nb_to_blog_tool/setup.py`: packaging metadata with no logic.

## Findings

| source | as written | input that shows it | evidently intended | confidence | as-written member | corrected member |
|---|---|---|---|---|---|---|
| _nb_to_blog_tool/nb-to-blog.py:39 | `_rewrite_png_links` reads `path_notebook`, a local of `main` that is not in its scope, so every run that reaches the rewrite raises `NameError` after the moves and leaves the post unrewritten | `blog/post/nb.ipynb`, with no `_output/assets/img/blog/post` directory, converter return code 0, and `nb.md` and `nb_files` produced | the notebook's stem is passed in, and the post is rewritten | high, not executed | NbToBlog.AsWrittenNeverRewrites | NbToBlog.CompletesExactly |
| _nb_to_blog_tool/nb-to-blog.py:44 | `<stem>_files` is replaced by `/assets/img/blog`, but line 35 moves the images into `assets/img/blog/<dir name>`, and the `asset_path_dir` parameter (line 38) is unused | notebook `blog/post/nb.ipynb` whose markdown links `nb_files/out_1.png`: the link becomes `/assets/img/blog/out_1.png`, while the image lands at `/assets/img/blog/post/out_1.png` | the link points into the post's asset directory, `/assets/img/blog/<dir name>/<file>` | medium, not executed; assumes the site is served from `_output`, where line 35 puts the images | NbToBlog.AsWrittenLinkMissesAsset | NbToBlog.LinkReachesAsset |

`NbToBlog.RunAsWritten` is the pipeline as the code stands. `NbToBlog.Run` and `NbToBlog.RunOn` correct line 39 only: they pass the stem, and the rewrite `NbToBlog.RewritePngLinks` still aims links at `/assets/img/blog`. `NbToBlog.RunToAssets` also corrects line 44 and writes links into the post's asset directory (`NbToBlog.RewritePngLinksToAssets`).
