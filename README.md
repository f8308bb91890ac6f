# Geografia da Desigualdade — a verified model of the STEM pipeline

`app.py` reads the yearly INEP higher-education course census (`MICRODADOS_CADASTRO_CURSOS_<ano>.CSV`).
For each year it resolves every course's region and state, restricts the data to the Nordeste and
Sudeste regions, completes the municipality from the institution file, classifies each course as
STEM or not and its institution as public or private, and sums enrolments. The sums come per
municipality-year and per micro-region-year, with the female, public and private shares and the
success rate (graduates over entrants). It also gives a year-by-region summary. Finally, it
clusters the municipalities of a year with k-means and labels the clusters "A", "B" or "C" by a
fixed rule.

This project models that core in Dafny and proves the properties the script relies on.

- `wrappers.dfy` (`Wrappers`): `Option`.
- `text.dfy` (`Text`): the string operations the script uses:
  - `int(str(int(x))[:2])`, `str.upper()` and the substring test `p in texto`;
  - `split('_')[-1].split('.')[0]` and `str.zfill(2)`;
  - `pd.to_numeric(...).astype(int)` on numeric text.

  The parsing and splitting operations come with their round trips. The substring test comes
  with its defining property. Upper-casing comes with its laws: it maps character by
  character (in place, for text without "ß"), distributes over concatenation and is idempotent.
- `frames.dfy` (`Frames`): a data frame as a map from column names to equally long columns of
  cells (`Null` for NaN, an integer, or a string), and `fillna`.
- `geo.dfy` (`Geo`): the three lookup tables and their agreement. `Inferred` is
  `infer_regiao_uf` as a function on frames. `Frame.InferRegiaoUf` is the same operation
  updating a frame object in place, proved equal to `Inferred`.
- `sorting.dfy` (`Sorting`): `sorted` on integers and the sorted distinct values of a list.
- `records.dfy` (`Records`):
  - `load_cursos`: resolution, the regional filter, the projection, the left join with the
    institution table and the municipality back-fill;
  - the year list parsed from file names;
  - the loop that keeps the non-empty years;
  - `pd.concat`.
- `classify.dfy` (`Classify`): `identificar_stem`, the CINE-code-first STEM rule, and the
  public/private rule.
- `aggregate.dfy` (`Aggregate`):
  - group-by sums over the municipal, micro-region and region keys;
  - the public/private pivot;
  - the guarded ratios;
  - the conservation of enrolment through grouping;
  - the year-by-region summary.
- `clusters.dfy` (`Clusters`):
  - the per-cluster means, the "A"/"C" selections and the labelling loop;
  - row labels, the three-municipality guard and the per-year loop;
  - the reference year;
  - the ten lowest female shares.

Outside effects become inputs:
- A year's course file is an `Option<Table>`: `None` when it cannot be read.
- A year's institution table is a map from `CO_IES` to the municipality, the micro-region and
  their codes.
- The k-means cluster assignment of a year is a sequence of cluster ids, one per municipality.
- The 75th-percentile volume threshold is a real number.

Three points where the code's behaviour is easy to misread:
- **A and C.** When the cluster with the lowest mean female share is also the "A" cluster, the
  labelling loop tests `cid == cid_a` first, so that cluster is "A" and no cluster is "C". One
  might expect a cluster with a low female share and a high volume to be labelled "C" ("desert").
  `Clusters.LowShareHighVolumeIsA` works a five-municipality example of that kind through the
  rule as written and gets `[A, B, B]`.
- **Dead branch.** The `else` branch at `app.py:125-126` (STEM by area name only) cannot run.
  `load_cursos` requires the `CO_CINE_AREA_GERAL` column, so every concatenated frame has it.
  `Records.Concat` therefore always reports the column present, and the keyword rule applies only
  where the code is NaN (`Classify.StemRule`).
- **CO_UF branch.** At `app.py:40` the `SG_UF` guard in the branch is always true: the branch is
  reached only when `SG_UF` is absent.

## Model

The labelling rule appears twice in `app.py`: for the reference year (lines 214-238) and inside the
per-year loop (lines 340-364), with the same code. Rows cite the first copy.

| member | source | states |
|---|---|---|
| Geo.TablesAgree | app.py:11-31 | UF_CODE_TO_SG and UF_CODE_TO_REGIAO have the same 27 codes, and each code's abbreviation has, in REGIAO_UF, the region the code has in UF_CODE_TO_REGIAO |
| Geo.RegionValuesKnown | app.py:11-24 | every region in REGIAO_UF and UF_CODE_TO_REGIAO is one of Norte, Nordeste, Sudeste, Sul, Centro-Oeste |
| Geo.UfCodeOfNumber | app.py:44-48 | `_uf_code` of a number n ≥ 10 is the number made of its first two decimal digits; for n < 10 it is NaN or below 10, so it is in no table |
| Geo.SaoPauloCode | app.py:44-51 | the IBGE code 3550308 resolves to state code 35, SP, Sudeste |
| Geo.Inferred | app.py:32-53 | resolution keeps the height and every existing column unchanged, and adds exactly the columns its branch writes (none, NO_REGIAO, or NO_REGIAO and SG_UF) |
| Geo.InferIdempotent | app.py:32-34 | resolving a second time changes nothing |
| Geo.InferGivesRegion | app.py:33-53 | NO_REGIAO exists afterwards exactly when it existed or one of SG_UF, CO_UF, CO_MUNICIPIO did |
| Geo.InferWritesKnownValues | app.py:35-51 | every region written is one of the five regions, and every abbreviation written is a key of REGIAO_UF |
| Geo.RegionMatchesState | app.py:35-51 | a written region is the REGIAO_UF region of the row's abbreviation, and a written abbreviation is missing exactly when the written region is |
| Geo.SgUfCells | app.py:35-37 | in the SG_UF branch, each row's NO_REGIAO is the REGIAO_UF lookup of that row's SG_UF cell and of nothing else |
| Geo.SgUfBranch | app.py:35-37 | in the SG_UF branch, SG_UF is kept, a known abbreviation gives its region, and an unknown abbreviation, a number or NaN gives a missing region |
| Geo.CoUfCells | app.py:38-42 | in the CO_UF branch, each row's SG_UF and NO_REGIAO are the table lookups of that row's CO_UF cell and of nothing else |
| Geo.CoUfBranch | app.py:38-42 | in the CO_UF branch, a numeric state code in the tables gives its abbreviation and region, any other cell gives both missing, and CO_MUNICIPIO is not consulted |
| Geo.MunicipioCells | app.py:43-51 | in the CO_MUNICIPIO branch, each row's SG_UF and NO_REGIAO come from that row's municipality code through `_uf_code` |
| Geo.UfCodeOfCell | app.py:44-51 | a municipality cell that is a number, or text `int()` reads, of 10 or more gives the state and region of its first two digits when they are a state code; a smaller number, unknown digits, unparsable text or NaN give NaN for both |
| Geo.MunicipioBranch | app.py:43-51 | from CO_MUNICIPIO alone, a code of 10 or more held as a number or as integer text gives the state and region of its first two digits; a code below 10, digits that are not a state code, non-integer text and NaN all give NaN for both |
| Geo.Frame.InferRegiaoUf | app.py:32-53 | updating the frame's columns in place leaves exactly the frame `Inferred` describes, still well formed |
| Text.IntTextRoundTrip | app.py:46 | `int(str(n)) == n` for every integer |
| Text.LeadingTwoText | app.py:46 | `int(str(n)[:2])` is the two leading decimal digits of n ≥ 10 |
| Text.Contains | app.py:108 | the substring test holds exactly when the pattern occurs at some position |
| Text.Upper | app.py:103 | upper-casing never shortens a string (ß becomes SS) |
| Text.UpperLength | app.py:103 | upper-casing text without "ß" keeps its length |
| Text.UpperPointwise | app.py:103 | in text without "ß", each character is replaced, in place, by its one-character upper case |
| Text.UpperAppend | app.py:103 | upper-casing works character by character: it distributes over concatenation |
| Text.UpperCharFixed | app.py:103 | an upper-cased character is unchanged by upper-casing again |
| Text.UpperIdempotent | app.py:103 | `s.upper().upper() == s.upper()` |
| Text.AfterLastAppend | app.py:110 | the last `_`-separated part of `prefix + tail` is the prefix's last part followed by a tail without `_` |
| Text.BeforeFirstAppend | app.py:110 | the first `.`-separated part of a text starting with a dot-free head is that head plus the rest's first part |
| Text.NumericTruncOfIntText | app.py:129-130 | numeric parsing of an integer's text gives that integer back |
| Sorting.Sort | app.py:110 | `sorted` returns an ascending permutation of its input |
| Sorting.SortedDistinct | app.py:318 | `sorted(unique())` is strictly ascending and has exactly the input's values |
| Records.KeepInScope | app.py:75 | the regional filter keeps exactly the rows whose region is Nordeste or Sudeste, each as often as before |
| Records.LoadCursos | app.py:70-95 | every loaded row is in scope and tagged with the year; a year fails (empty frame) exactly when its file is unreadable or lacks a required column after resolution; QT_ING and QT_CONC are kept exactly when present |
| Records.BackfillOnlyMissing | app.py:86-91 | a municipality name or code the course file has is kept; only a missing one is taken from the course's institution |
| Records.YearOfCursosFile | app.py:110 | the year parsed from `MICRODADOS_CADASTRO_CURSOS_<y>.CSV` is y |
| Records.ParseYears | app.py:110 | the year list parses every path, or fails (int() raises) exactly when some path has no integer year |
| Records.Anos | app.py:110 | the years are the parsed years in ascending order, as a permutation |
| Records.CollectYears | app.py:111-116 | the loop over `anos` appends exactly the loaded, non-empty years in order |
| Records.LoadsOf | app.py:111-113 | the loop loads every entry of `anos`, one load per entry, in order |
| Records.NonEmptyLoadsSnoc | app.py:111-116 | one more entry of `anos` appends its table exactly when it loaded with at least one row, and nothing otherwise |
| Records.KeepNonEmptyExact | app.py:114-116 | every loaded, non-empty year's table is gathered, and every gathered table is such a year's table |
| Records.KeepAll | app.py:114-116 | when every year loads and is non-empty, the gathered list is all of them, in the order of `anos` |
| Records.NonEmptyLoadsFacts | app.py:111-116 | at most one table per entry of `anos`; each gathered table is non-empty, comes from a year in `anos`, and holds only in-scope rows of that year |
| Records.Concat | app.py:117 | concatenation fails exactly on an empty list; its rows are the gathered tables' rows, table after table, with every multiplicity; a column exists when some year has it; CO_CINE_AREA_GERAL always exists |
| Records.FlattenAppend | app.py:117 | concatenating two lists of tables gives the rows of the first followed by the rows of the second |
| Records.FlattenOne | app.py:117 | concatenating one table gives its rows |
| Records.GatheredRowsSnoc | app.py:111-117 | one more entry of `anos` appends exactly its load's rows to `df_geral` when it is kept, and nothing otherwise |
| Records.GatheredRowsInScope | app.py:70-117 | every row of `df_geral` is a Nordeste or Sudeste course of one of the listed years |
| Classify.AnyKeyword | app.py:108 | `any(p in texto ...)` holds exactly when some keyword occurs in the text |
| Classify.IdentificarStem | app.py:101-108 | a value is STEM exactly when it is not NaN and its upper-cased text contains one of the eight keywords |
| Classify.CodeStemIff | app.py:122-123 | a numeric CINE code is STEM exactly when it is 5, 6 or 7 |
| Classify.TextCodeStemIff | app.py:122-123 | a text CINE code is STEM exactly when it is "5", "6", "7", "05", "06" or "07" |
| Classify.StemRule | app.py:121-126 | a course with a numeric CINE code is STEM exactly when the code is 5, 6 or 7, whatever its area name; one without a code is STEM exactly when its area name contains a keyword, and never when the name is missing |
| Classify.TipoRule | app.py:129-130 | a numeric category is public exactly when it is at most 3; a missing or non-numeric category is private |
| Classify.TipoOfText | app.py:129-130 | a category read as text classifies like the number, with truncation toward zero ("3.9" and "-0.5" public, "4.0" private) |
| Classify.StemRows | app.py:124-131 | the STEM selection keeps exactly the STEM courses, each as many times as in the input, tagged with its institution type |
| Classify.StemRowsAppend | app.py:127 | the selection of a concatenation is the concatenation of the selections, so row order is kept |
| Classify.SelectStem | app.py:121-131 | `df_stem` holds exactly the STEM rows of `df_geral`, each as many times as there, tagged public or private |
| Classify.KeywordExample | app.py:104-108 | "Engenharia" is STEM |
| Classify.KeywordOvermatch | app.py:104-108 | "Política" is STEM too, because its upper-cased text contains "TIC" |
| Classify.KeywordCounterexample | app.py:104-108 | "Direito" is not STEM |
| Aggregate.DistinctKeys | app.py:191-201 | the groups are distinct and are exactly the keys of the rows with no missing key part |
| Aggregate.Share | app.py:202-205 | a ratio is missing exactly when the total is not positive, and otherwise times the total gives the part |
| Aggregate.ShareNotClamped | app.py:202 | a female count above the total gives a share above one (12 of 10 is 1.2) |
| Aggregate.PublicPrivateSum | app.py:191-201 | a group's public and private subtotals add up to its total, an absent type counting 0 |
| Aggregate.SharesComplement | app.py:204-205 | two parts making up a positive total have shares adding up to one |
| Aggregate.RatioLaws | app.py:202-205 | with public + private = total, each share is missing exactly when the total is not positive, and public + private share = 1 otherwise |
| Aggregate.Indicators | app.py:190-212 | the indicator table has one row per group, built from that group's sums |
| Aggregate.IndicatorCounts | app.py:191-203 | QT_MAT and QT_MAT_FEM are the group's sums, QT_MAT_PUBLICA + QT_MAT_PRIVADA = QT_MAT, and VOLUME_STEM = QT_MAT |
| Aggregate.IndicatorRatiosDefined | app.py:202-205 | in the municipal table (and the micro-region table, which repeats the formulas) PCT_FEM_STEM, PCT_PUBLICA and PCT_PRIVADA are missing exactly when QT_MAT ≤ 0 |
| Aggregate.IndicatorRatioValues | app.py:202-205 | in both indicator tables a present PCT_FEM_STEM times QT_MAT is QT_MAT_FEM, unclamped, and PCT_PUBLICA + PCT_PRIVADA = 1 when QT_MAT > 0 |
| Aggregate.SuccessCounts | app.py:206-211 | QT_ING and QT_CONC exist exactly when both columns exist, and are the group's sums |
| Aggregate.SuccessRate | app.py:212 | TAXA_SUCESSO is missing exactly when QT_ING ≤ 0, and otherwise times QT_ING gives QT_CONC |
| Aggregate.IndicatorKeys | app.py:190-201 | the table's keys are distinct, each belongs to some grouped row, and every grouped row's key is in the table |
| Aggregate.Regroup | app.py:191-201 | summing the group sums over all groups (of a year) gives the sum over every row with a complete key (of that year) |
| Aggregate.MunicipalIndicators | app.py:190-212 | `df_ind` has one row per municipality-year group; TAXA_SUCESSO is present exactly when QT_ING and QT_CONC exist; each QT_MAT is its group's sum, and the QT_MAT of all rows add up to the STEM enrolment over rows with a complete key |
| Aggregate.MicroIndicators | app.py:258-270 | `df_ind_m` has one row per micro-region-year group and no success rate; each QT_MAT is its group's sum, and all QT_MAT add up to the STEM enrolment over rows with a complete key |
| Aggregate.IndicatorsConserveTotal | app.py:190-212 | the QT_MAT of all rows of an indicator table (municipal or micro-region) of a year add up to that year's STEM enrolment over rows with a complete key |
| Aggregate.RegionSummary | app.py:134-137 | `resumo_anual` has one row per distinct (year, region) key, each with that group's QT_MAT and QT_MAT_FEM sums |
| Aggregate.RegionSummaryKeys | app.py:134-137 | every summary key is a (year, region) pair of some STEM row with a region, and every STEM row with a region has its key in the summary |
| Aggregate.YearSummaryConserves | app.py:134-148 | summing `resumo_anual` again by year gives the year's total QT_MAT (or QT_MAT_FEM) over its STEM rows with a region |
| Aggregate.Percent | app.py:139-149 | PCT_MULHERES times the total is 100 times the female count, for a positive total |
| Clusters.YearRows | app.py:215-216 | a year's rows are exactly the indicator rows of that year |
| Clusters.Years | app.py:318 | the loop's years are strictly ascending and exactly the years with rows |
| Clusters.ReferenceYear | app.py:214 | the reference year is a year of the table that no row exceeds |
| Clusters.ReferenceYearIsLast | app.py:214 | the reference year is the last year the per-year loop (line 318) visits |
| Clusters.Members | app.py:223 | a cluster has rows exactly when its id was assigned, and they come from the year's rows |
| Clusters.MembersExact | app.py:223 | a cluster's rows are exactly the rows assigned its id, as many as the id was assigned |
| Clusters.SkipNaMean | app.py:223 | a mean skipping NaN is missing exactly when all values are, and otherwise times the count of values gives their sum |
| Clusters.ClusterMeans | app.py:223 | the mean volume times the cluster size is the summed volume; the mean female and private shares are missing exactly when all of the cluster's are |
| Clusters.MeanShares | app.py:223 | a cluster's mean female and private shares are the NaN-skipping means of its members' shares |
| Clusters.MeansTable | app.py:223 | `means` has one row per assigned cluster id, in ascending id order |
| Clusters.MeansOfCluster | app.py:223 | each row of `means` averages exactly the rows assigned its id: its volume is their summed volume over their count, and its shares are their NaN-skipping means |
| Clusters.FirstArgMax | app.py:227-229 | `idxmax` is missing exactly when there is no candidate, and otherwise picks the first candidate of highest score |
| Clusters.PickA | app.py:227-229 | an "A" cluster exists whenever a cluster does; it has the highest score among clusters at or above the threshold, or among all clusters when none is |
| Clusters.PickC | app.py:224 | `idxmin` of the female share is missing exactly when no cluster has one, and otherwise picks the first lowest present share |
| Clusters.BuildLabels | app.py:230-237 | the label loop gives each cluster its label by the rule "A" first, then "C", otherwise "B" |
| Clusters.ExactlyOneA | app.py:229-237 | exactly one cluster is labelled "A": the chosen one |
| Clusters.SameA | app.py:229-237 | two positions both labelled "A" are the same position |
| Clusters.AtMostOneC | app.py:224-237 | at most one cluster is "C", and it has the least female share; there is no "C" exactly when no cluster has a female share or the least one is the "A" cluster |
| Clusters.AIsBest | app.py:227-233 | the "A" cluster maximises volume × private share among eligible clusters, or among all when none is eligible |
| Clusters.LowShareHighVolumeIsA | app.py:223-237 | in the five-municipality scenario, the low-share, high-volume cluster is "A" and no cluster is "C" |
| Clusters.TagRows | app.py:238 | each row is paired with its cluster and the label of that cluster's position |
| Clusters.LabelRows | app.py:238 | the labelled rows are the year's rows in order, each with its cluster id |
| Clusters.RowCarriesClusterLabel | app.py:238 | every row carries the label of its own cluster |
| Clusters.OneClusterIsA | app.py:229-238 | all rows labelled "A" are in one cluster |
| Clusters.ClusterYear | app.py:340-364 | a year is labelled exactly when it has at least three municipalities, and then row by row with its cluster id |
| Clusters.MapYearsAt | app.py:318-365 | the record built year by year holds, at each position, the entry of that position's year |
| Clusters.ClusterEveryYear | app.py:318-365 | the per-year loop visits the years in ascending order and records each year's labelling |
| Clusters.EveryYearGuard | app.py:318-343 | every visited year has rows, and exactly the years with fewer than three are skipped |
| Clusters.InsertByFem | app.py:252 | inserting into a list sorted by female share (missing last) keeps it sorted and adds the row |
| Clusters.SortByFem | app.py:252 | `sort_values('PCT_FEM_STEM')` returns a permutation in ascending share order, missing shares last |
| Clusters.LowestTen | app.py:252 | `head(10)` of that order has min(10, n) rows from the input, sorted, none with a higher share than any row left out |

## Left out

- File discovery (`glob`) and reading (`pd.read_csv`), and `load_ies_mapping` with its
  try-two-files loop (`app.py:55-68`): these are I/O. Course files and institution tables are
  inputs, and an institution table is a map from `CO_IES`, so its keys are unique. A duplicated
  `CO_IES` would duplicate course rows in the merge.
- `infer_regiao_uf` applied to the institution file: the projected `_IES` columns never depend on
  it.
- Plotting, `print` and `to_csv`: presentation and output. This includes the regional means of
  the municipal and micro-region female shares (`app.py:273-339`), the public/private chart table
  `resumo_tipo` (`app.py:163-167`) and `priv_med` (`app.py:226`), which nothing reads.
- `StandardScaler` and `KMeans`: floating-point numerics. The assignment of municipalities to
  clusters is an input, one cluster id per row. The feature matrix `fillna(0)` only feeds k-means.
- Clusters.ClusterYear: the 75th-percentile volume threshold is an input, not a model of pandas'
  linear interpolation.
- Exact `real` arithmetic replaces floating point, so rounding is not modelled.
- Clusters.ClusterYear: at the reference year (`app.py:214-238`) there is no guard, and k-means
  raises with fewer than three municipalities. The model returns no labelling there too.
- Clusters.PickC: when no cluster has a female share, pandas' `idxmin` warns or raises
  (depending on its version). The model gives no "C".
- Clusters.MeansTable: the mean PCT_PUBLICA per cluster is computed by the source but unused by
  the rule, and is left out.
- Aggregate.Percent: PCT_MULHERES and PCT (`app.py:139, 149`) divide with no guard and give
  inf/NaN on a zero total. The model states them only for a positive total.
- Aggregate.Indicators: group rows come in first-appearance order, not pandas' sorted index order.
  A missing `QT_MAT_PUBLICA` or `QT_MAT_PRIVADA` column (no public or no private STEM row at all)
  makes the source raise a KeyError. The model counts 0.
- Frames.Amount: a non-numeric text amount is summed as 0; pandas would concatenate or raise.
- Records.Concat: with no year loaded, `pd.concat([])` raises; the model returns `None`.
- Text.ParseInt: `int()`'s acceptance of surrounding whitespace and of `_` digit separators is not
  modelled.
- Text.NumericTrunc: `pd.to_numeric`'s exponents, whitespace and infinities are not modelled.
- Classify.CodeIsStem: `astype(str)` on a float column renders 5 as "5.0", which fails the
  whitelist. The model reads a numeric code as an integer.
- Text.Upper: Unicode case mapping is modelled for Latin-1 only.
- Non-integral numbers: a cell holds NaN, an integer or a string. A non-integral float, such as a
  fractional code, count or category read from the CSV, cannot be represented.
- Aggregate.MicroIndicators: `groupby(keys_micro)` at `app.py:259` raises a KeyError when no loaded
  year's institution table carried NO_MICRORREGIAO_IES or CO_MICRORREGIAO_IES. That also stops the
  script before the per-year loop. The model does not track whether the micro-region columns
  exist: those cells are NaN, and the table has the groups with complete keys, none when every
  micro-region cell is NaN.
- No female/male parity index exists in `app.py`, and none is modelled.
