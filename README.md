# Livestock dashboard core, modelled in Dafny

The dashboard reads yearly livestock-subsidy datasets (one folder per year,
each with a CSV file and a README), decodes the animal codes and reports
trends. This project models three pieces of it: the legend parser and the
trend engine of `DataAgent`, and the question router of the
`DataAnalystVisualizer` class. The entry points in the repository do not
call that class: `main.py:164-169` answers questions through
`DataAgent.answer_question`, a stub that always returns the same sentence
(`src/data_agent.py:141-146`), and `streamlit_app.py:68-70` prints a
placeholder.

* **Legend parsing** (`DataAgent.extract_animal_codes`). A README lists animal
  codes as lines such as `1234 = Melkekyr`. The agent runs
  `re.findall(r'(\d+)\s*=\s*(.+)', text)` and stores every `code -> name.strip()`
  pair in a dictionary, a later pair overwriting an earlier one with the same
  code. `LegendCodes.MatchAt` gives the match the backtracking engine picks at
  one position. `LegendCodes.Scan` is the left-to-right scan of `findall`.
  `LegendCodes.ExtractAnimalCodes` is the dictionary-building loop.
* **Trends** (`DataAgent.find_significant_trends`, `describe_trend`,
  `calculate_animal_trends`). The input maps each year to that year's data
  frame. The code sorts the years and intersects the column sets of all
  years. For each common column it takes the mean of every year. It then
  either fits a line through the means and keeps the columns with
  `p < 0.05`, or returns the series of means. Both loops are methods over
  the set of common columns, each proved against a function that defines its result.
* **Question routing** (`DataAnalystVisualizer.generate_response` and
  `_extract_column`). The question is lower-cased. The first keyword found,
  in a fixed priority order, picks the kind of answer. An aggregate answer is
  about the first column whose lower-cased name occurs in the question.

`Text` holds the parts of Python's `str` that these rely on: `isspace()`
(which is also `\s`), `\d`, `lower()`, `in`, `strip()`, `", ".join(...)` and
`str(n)`. `Wrappers` holds `Option` and `Result`.

Modelling choices:

* Years are strings, because the loader takes them from folder names. They
  are sorted by Python's string order (`Trends.Precedes`).
* A float is `Trends.Float`: a real number or NaN. Every comparison with NaN
  is false, as in Python.
* Pandas' `.mean()` and SciPy's `linregress` are given functions. A frame is
  its column labels plus a `mean` function that returns `None` where the
  call raises. `regress` returns `None` where the fit raises. It sees only
  the means, because the x values are always `0 .. n-1`.
* The formatted aggregate figures of `generate_response` (`mean()`, `max()`,
  `min()`, `sum()` printed with `:.2f`) are a given function
  `figure(kind, column)`.

Behaviour of the code that the model keeps, some of it surprising:

* The second `\s*` of the pattern may run over line feeds. So `1 =` at the end
  of a line takes its name from the next line. When only whitespace follows
  the `=` up to the end of the text, the engine backtracks until `(.+)`
  matches one whitespace character that is not a line feed. The stored name
  is then the empty string.
* A slope of zero or NaN is reported as `"decreciente"`. A NaN p-value never
  passes the significance gate.
* When an aggregate keyword is present but no column is found,
  `generate_response` falls off its `if`/`elif` chain and returns `None`.
  The same happens when the column found has an empty name, because
  `if column:` is false for `""`. `QuestionRouter.GenerateResponse` returns
  `None` in exactly these cases.
* An empty column name occurs in every question. A frame whose first column
  has an empty name therefore makes every aggregate question return `None`.
* Non-numeric columns stay in the common-column set, because the code
  intersects the column labels only (`src/data_agent.py:92-94`).
* `find_significant_trends` drops a common column when one of its means
  raises, when the fit raises, or when the p-value is not below 0.05
  (`src/data_agent.py:96-111`). `calculate_animal_trends` drops it only when
  one of its means raises (`src/data_agent.py:129-137`).
* The loader turns every text column into floats with
  `pd.to_numeric(..., errors='coerce')` (`src/data_agent.py:67-70`), so
  unparsable cells become NaN. In frames built that way, the mean of such a
  column is NaN and does not raise. `find_significant_trends` then fits the
  line through those NaN means. The p-value is whatever `linregress` returns
  for them, and the column fails the gate only when that value is NaN or at
  least 0.05. `calculate_animal_trends` reports the column with NaN means. A mean raises only
  on a frame that did not come from that loader. The model covers both
  cases, because `mean` may return NaN or `None`.

## Model

| member | source | states |
|---|---|---|
| LegendCodes.FitsForced | src/data_agent.py:81 | every way the pattern can match at a position takes the whole digit run and the whole whitespace run before `=` |
| LegendCodes.MatchAt | src/data_agent.py:81-82 | a match at a position starts with a digit there and has its `=` after the digit run and before the name, all inside the text (`MatchAtSound` and `MatchAtFirstChoice` pin it down fully) |
| LegendCodes.MatchAtSound | src/data_agent.py:81-82 | what `MatchAt` reports is a real match of `(\d+)\s*=\s*(.+)`: digits, whitespace, `=`, whitespace, then a non-empty run without line feeds |
| LegendCodes.MatchAtFirstChoice | src/data_agent.py:81-82 | whenever the pattern can match at a position, `MatchAt` finds a match there, and it is the backtracking engine's first choice: same digits and `=`, longest second `\s*`, then longest `(.+)` |
| LegendCodes.Scan | src/data_agent.py:82 | every pair `findall` reports has a non-empty all-digit code and a non-empty name without a line feed |
| LegendCodes.ScanLeftmost | src/data_agent.py:82 | the scan reports the leftmost match first and resumes right after its end |
| LegendCodes.ScanNothing | src/data_agent.py:82 | a text with no match from some position on adds no pairs from there |
| LegendCodes.FindAll | src/data_agent.py:81-82 | every pair `re.findall` returns for the pattern has an all-digit code and a name without a line feed |
| LegendCodes.LegendLineRoundTrip | src/data_agent.py:81-82 | the text `code + " = " + name` (digit code, one-line name that does not start with whitespace) is read back as exactly `[(code, name)]` |
| LegendCodes.StoreNext | src/data_agent.py:83-84 | one more `animal_codes[code] = ...` keeps "keys are the codes seen, each with the value stored last" true for one more pair |
| LegendCodes.StoredIsLastWins | src/data_agent.py:83-84 | after the loop, the keys are exactly the codes found, and each holds the stripped name of the last pair with that code |
| LegendCodes.StripKeepsLine | src/data_agent.py:84 | stripping a one-line name leaves a one-line name |
| LegendCodes.StoredAreWellFormed | src/data_agent.py:79-85 | in the dictionary built this way, every key is a non-empty run of digits and every value is stripped and has no line feed |
| LegendCodes.ExtractAnimalCodes | src/data_agent.py:79-85 | keys are exactly the codes `findall` reports; the last pair with a code wins and its name is stripped; keys are digit runs, values stripped single lines |
| Text.Strip | src/data_agent.py:84 | `name.strip()` is the part of the name between its leading and trailing whitespace, and has no whitespace at either end |
| Text.StripIdempotent | src/data_agent.py:84 | stripping twice is stripping once |
| Text.LowerIdempotent | src/data_analyst_visualizer.py:44 | lower-casing twice is lower-casing once |
| Text.Lower | src/data_analyst_visualizer.py:44 | `str.lower()` keeps the length; `A`-`Z` and the Latin-1 capitals U+00C0-U+00DE other than `×` (U+00D7) become the small letter 32 code points on; every other character stays the same, so no ASCII capital is left |
| Trends.SortedYears | src/data_agent.py:89 | `sorted(keys)` lists exactly the keys, each once |
| Trends.SortedYearsAscending | src/data_agent.py:89 | the sorted years are strictly ascending in Python's string order |
| Trends.AscendingIsSorted | src/data_agent.py:89 | any strictly ascending list of exactly the keys is the sorted list, so the sort is unique |
| Trends.IntersectionMembers | src/data_agent.py:92-94 | a column is in the intersection built year by year exactly when every listed year has it |
| Trends.IntersectionOrderFree | src/data_agent.py:92-94 | intersecting the years in any order, or with repeats, gives the same set |
| Trends.IntersectionIsEveryYear | src/data_agent.py:92-94 | over a list of all the years, the intersection holds exactly the columns present in every year |
| Trends.CommonIsEveryYear | src/data_agent.py:91-94 | over the sorted years, the common columns are exactly the columns present in every year, so a column missing from one year never appears |
| Trends.CommonColumns | src/data_agent.py:92-94 | the loop computes the year-by-year intersection of the column sets |
| Trends.ColumnMeansAligned | src/data_agent.py:98 | the list of means exists exactly when every year's mean exists; it is then one mean per year, in the order of the years |
| Trends.ColumnMeans | src/data_agent.py:98 | when the list of yearly means exists, it has one mean per year; `ColumnMeansAligned` states when it exists and which mean sits at each position |
| Trends.Direction | src/data_agent.py:101 | `"creciente"` exactly when the slope is a number above 0, else `"decreciente"` |
| Trends.Strength | src/data_agent.py:116 | `"fuerte"` iff r² > 0.7, `"moderada"` iff 0.5 < r² <= 0.7, `"débil"` otherwise (NaN included) |
| Trends.Speed | src/data_agent.py:117 | `"rápida"` iff \|slope\| > 1, `"moderada"` iff 0.5 < \|slope\| <= 1, `"lenta"` otherwise (NaN included) |
| Trends.DescriptionIgnoresSign | src/data_agent.py:115-118 | negating the slope does not change the description |
| Trends.DescriptionNamesBands | src/data_agent.py:115-118 | two descriptions are equal exactly when they have the same strength band and the same speed band |
| Trends.DescriptionLayout | src/data_agent.py:115-118 | `describe_trend` returns `"Tendencia "`, then the strength band, then `" y "`, then the speed band, and nothing else |
| Trends.DescribeTrend | src/data_agent.py:115-118 | the description is as long as `"Tendencia "`, the strength band, `" y "` and the speed band together; `DescriptionLayout` places each part and `DescriptionNamesBands` reads both bands back |
| Trends.GateIsStrict | src/data_agent.py:100 | a p-value of exactly 0.05, or NaN, is not significant (the boundary of the gate) |
| Trends.TrendFrom | src/data_agent.py:101-109 | the record stores the fit's p-value, slope and intercept, `r_squared` = r², the direction of the slope (`"creciente"` for a positive slope, `"decreciente"` for a zero, negative or NaN one), and the description built from slope and r² |
| Trends.FitFor | src/data_agent.py:98-99 | the fit of a column exists only when its list of yearly means exists, that is, when no mean raises |
| Trends.TrendStep | src/data_agent.py:96-111 | visiting one more column adds it exactly when its means and fit exist and p < 0.05 |
| Trends.TrendsReport | src/data_agent.py:91-113 | once every common column is visited, the report holds exactly the columns present in every year whose fit is significant, and every reported p-value is a number below 0.05 |
| Trends.FindSignificantTrends | src/data_agent.py:87-113 | raises iff there are no years; otherwise a column is reported iff it is in every year and its fit exists with p < 0.05, and its record is built from that fit; no reported column has a p-value of 0.05 or more, or NaN |
| Trends.SeriesStep | src/data_agent.py:129-137 | visiting one more column adds it exactly when all its yearly means exist |
| Trends.SeriesReport | src/data_agent.py:122-139 | once every common column is visited, each reported series lists the sorted years and, position by position, that year's mean |
| Trends.CalculateAnimalTrends | src/data_agent.py:120-139 | raises iff there are no years; otherwise a column is reported iff it is in every year and all its means exist; its series is the ascending years and their means, aligned |
| QuestionRouter.ExtractColumn | src/data_analyst_visualizer.py:68-72 | `None` iff no column's lower-cased name occurs in the lower-cased text; otherwise the first column, in order, that occurs |
| QuestionRouter.ExtractColumnIgnoresCase | src/data_analyst_visualizer.py:68-72 | lower-casing the text first does not change the column found |
| QuestionRouter.EmptyNameAlwaysMentioned | src/data_analyst_visualizer.py:70 | a column with an empty name occurs in every text |
| QuestionRouter.Classify | src/data_analyst_visualizer.py:45-66 | the kind chosen has one of its keywords in the question, and no kind of higher priority does |
| QuestionRouter.FirstKeywordDecides | src/data_analyst_visualizer.py:45-66 | the highest-priority kind whose keyword occurs is the one chosen, whatever later keywords also occur |
| QuestionRouter.GenerateResponse | src/data_analyst_visualizer.py:43-66 | `None` iff the kind is an aggregate and no column, or a column with an empty name, is found; a question with no keyword gets the apology |
| QuestionRouter.AggregateNamesFirstColumn | src/data_analyst_visualizer.py:45-60 | an aggregate answer is the sentence of its kind about the first column the question mentions |
| QuestionRouter.EmptyLeadingColumnGivesNone | src/data_analyst_visualizer.py:45-60 | with an empty-named first column, every aggregate question gets `None` |
| QuestionRouter.CountIgnoresColumns | src/data_analyst_visualizer.py:61-62 | a row-count question is answered from the row count alone, whatever the columns or figures |
| QuestionRouter.CountAnswerRoundTrip | src/data_analyst_visualizer.py:62 | the number in the row-count sentence reads back as the row count |
| QuestionRouter.ListingShowsColumnsInOrder | src/data_analyst_visualizer.py:63-64 | the column listing starts with its prefix, has every column at its offset in the given order, `", "` after each column but the last, and ends right after the last column |
| QuestionRouter.ListingLayout | src/data_analyst_visualizer.py:64 | in `prefix + sep.join(columns)`, column `i` and the separator after it lie at their offsets |
| QuestionRouter.ResponseIgnoresCase | src/data_analyst_visualizer.py:44 | asking the question in capitals gets the same answer, because the question is lower-cased first |
| Text.JoinItem | src/data_analyst_visualizer.py:64 | in `sep.join(xs)`, item `i` sits at its offset |
| Text.JoinSeparator | src/data_analyst_visualizer.py:64 | in `sep.join(xs)`, a separator follows every item but the last |
| Text.JoinLength | src/data_analyst_visualizer.py:64 | `sep.join(xs)` is exactly as long as the items and the separators between them |
| Text.Join | src/data_analyst_visualizer.py:64 | `sep.join(xs)` of a non-empty list starts with its first item |
| Text.NatToStringRoundTrip | src/data_analyst_visualizer.py:62 | `str(n)` is a string of digits whose value is `n` |
| Text.NatToString | src/data_analyst_visualizer.py:62 | `str(n)` is a non-empty string of digits, and starts with `0` only for `n == 0` |

## Left out

- `DataAgent.__init__`, `list_csv_and_readme_files`, `load_readme` and `load_csv` read secrets and call GitHub and HTTP. They are I/O and are not modelled. The trend functions take the loaded frames as input.
- `DataAnalystVisualizer.analyze_and_visualize` draws plots with matplotlib and seaborn. It is not modelled, but its column choice is `ExtractColumn`.
- Pandas' `.mean()` and SciPy's `linregress` are given functions, not computed. The model keeps only their results and the cases where they raise.
- Trends.TrendFrom: `r_value**2` is the exact square of a real, without floating-point rounding. Infinities are not modelled; NaN is.
- Trends.FitFor: the standard error that `linregress` also returns is never used, so it is not modelled.
- QuestionRouter.GenerateResponse: the aggregate figures and their `:.2f` formatting are a given function. An exception raised by `mean()`, `max()`, `min()` or `sum()` on a non-numeric column, which `generate_response` does not catch, is not modelled.
- Text.Lower: models `str.lower()` for ASCII and Latin-1 capitals only. Other scripts, and characters that lower-case to two characters, are left unchanged.
- LegendCodes.MatchAtFirstChoice: `\d` is modelled as the ASCII digits only. Python's `\d` on a `str` also matches other Unicode decimal digits.
- Column labels are strings. Pandas also allows non-string labels, on which `col.lower()` and `", ".join` would raise.
- The logging calls in the trend loops have no effect on the results and are not modelled.
- The Streamlit user interface, `ml_models.py`, `repo_analysis.py`, `data_visualization.py`, `config.py` and the entry points are not part of this model.
