# TrendForge AI — a verified model of the dashboard's data core

TrendForge AI is a Streamlit stock dashboard. It fetches a price table, adds
technical indicators and shows three pages: a real-time analysis with an LLM
write-up, charts, and a forecast. This project models the parts of it that
compute or decide something. It proves what those parts promise.

- **Indicators** (`utils/data_handler.py`, `calculate_technical_indicators`):
  - MA20 and MA50: rolling means with `min_periods=1`, added from half the window length.
  - RSI(14) from rolling gain/loss averages, in float64 semantics where 0/0 is NaN and x/0 is infinity.
  - MACD and Signal from pandas' `adjust=False` exponential smoothing, including its handling of NaN gaps.
  - The `Adj Close` fallback, and the final `dropna(how='all')`.
- **Forecasting** (`modules/forecasting.py`):
  - Cleaning the closes, and the guard of at least five closes.
  - The ordinary-least-squares line fitted to the row numbers, proved optimal and unique.
  - The projected dates.
  - The prompt's `safe_format`.
- **Analysis** (`modules/analysis.py`):
  - `safe_get_value`, `format_currency`, `data_invalid` and `calculate_daily_change` with its arrow.
  - The prompt's `format_value` figures.
- **Visualization** (`modules/visualization.py`):
  - `validate_and_normalize_data`: label normalisation, required columns, coercion and dropping null closes.
  - The indicator options offered for plotting.
  - The 30-day volume average table.
- **Entry point** (`main.py`): `data_valid` and the page routing of `main`/`display_page`.
- **LLM text** (`utils/llm_helper.py`): `clean_llm_response`, with Python's `str.split`, `str.strip` and `str.replace` modelled as functions.

## How it is modelled

- **Tables.** A pandas table is a `Frame`: an index of day numbers and a sequence of named `Column`s of `Value` cells.
- **Cells.** A `Value` is a number, `Missing` (NaN), `Undefined` (the NaN of 0/0), `NoneValue`, or `Text`.
- **Reals and floats.** Floats are Dafny `real`s. The one place where infinity and NaN arise from arithmetic, the RSI formula, uses a small `Float` type with `Fin`, `PosInf` and `NaN`.
- **String parsing.** Python's string-to-number conversion (`float()` and `pd.to_numeric`) is not visible code. It is a parameter `parse: string -> Option<real>`.
- **Errors.** Exceptions the code lets escape become `Result` errors. Examples: a `KeyError` on a missing `Close` or `Volume`, or a fit with no rows. Handled exceptions become the value the handler returns.
- **Number formatting.** `f"{x:.2f}"` and `f"{x:,.2f}"` are modelled exactly: sign, round-half-even on the exact value, grouping by threes, and zero padding.

Modules, one per file:
- `Values`, `Frames`, `Stats`, `Ewm`, `Format`: the pandas and Python building blocks.
- `Indicators`, `Ols`, `Forecasting`, `Analysis`, `Visualization`, `App`, `LlmText`: the repository's own logic.

Where the code does something a reader might not expect, the model follows the code:
- `format_currency` of a float NaN prints `"₹nan"`, not "N/A", because NaN is a float (`Analysis.FormatCurrency`).
- The RSI of row 0 is NaN. Its change is undefined, so both averages are 0 and the formula divides 0 by 0 (`Indicators.RsiFirstUndefined`). It is not back-filled.
- `data_valid` raises `KeyError` on a non-empty table without `Close` (`App.DataValid`). It does not return False.

## Model

| member | source | states |
|---|---|---|
| Values.ToNumeric | utils/data_handler.py:55 | `pd.to_numeric(errors='coerce')` always yields a number or NaN; numbers are kept, nulls stay null, and text becomes a number exactly when it parses |
| Values.Coerce | utils/data_handler.py:55 | coercing a column converts every cell in place, keeping the length |
| Frames.Assign | utils/data_handler.py:69 | `data[name] = cells` makes `name` hold `cells`, adds no other column, and leaves every other column's cells unchanged |
| Frames.KeepRows | modules/visualization.py:67 | row selection keeps every column label and, in each column and the index, exactly the masked rows in their original order |
| Frames.TakeIsFilter | modules/visualization.py:67 | picking the positions of a mask equals the reference left-to-right filter |
| Frames.LookupKeepRows | modules/visualization.py:67 | a column after row selection is the column's cells at the kept positions |
| Frames.DropAllNullRows | utils/data_handler.py:96 | `dropna(how='all')` keeps every column label, in order, and a well-formed table |
| Frames.DropAllNullRowsKeeps | utils/data_handler.py:96 | a row is kept iff at least one of its cells is not null |
| Frames.CoercedMasks | modules/forecasting.py:43 | after coercion, a cell is non-null exactly when the original cell converts to a number |
| Stats.RollingMean | utils/data_handler.py:74-77 | each output is the NaN-skipping mean of the trailing window of at most w rows ending at that row |
| Stats.MeanBounds | utils/data_handler.py:84-85 | a NaN-skipping mean lies within any bounds of the numbers it averages |
| Stats.MeanAllNum | utils/data_handler.py:74-77 | over cells that are all numbers, the mean is the sum divided by the count |
| Ewm.Alpha | utils/data_handler.py:91 | the smoothing factor of a span is in (0, 1] |
| Ewm.EwmMean | utils/data_handler.py:91-94 | one smoothed value per row, each determined by the prefix up to that row |
| Ewm.EwmNoGaps | utils/data_handler.py:91-94 | with no NaN, pandas' adjust=False algorithm equals the textbook recurrence y0 = x0, yi = (1-a)·y(i-1) + a·xi |
| Ewm.EwmBounds | utils/data_handler.py:91-94 | each smoothed value lies within any bounds of the numbers seen so far |
| Ewm.EwmFirst | utils/data_handler.py:91-94 | the first smoothed value is the first cell, or NaN if that cell is NaN |
| Ewm.EwmConstant | utils/data_handler.py:91-94 | smoothing numbers that all equal c gives c wherever a value is defined |
| Format.DigitsRoundTrip | modules/analysis.py:17 | reading back the decimal digits of n gives n |
| Format.GroupRoundTrip | modules/analysis.py:17 | deleting the thousands separators from a grouped digit string gives the digits back |
| Format.GroupShape | modules/analysis.py:17 | every group after the first has exactly three digits, and a grouped string starts with a digit |
| Format.RoundHalfEven | modules/analysis.py:97 | the rounded integer is within 1/2 of the value, and exact ties go to the even integer |
| Format.RoundHalfEvenUnique | modules/analysis.py:97 | any integer within 1/2 whose ties go to even is the rounded value |
| Format.Fixed | modules/analysis.py:97 | `f"{x:.nf}"` starts with a minus sign exactly when x is negative, and otherwise with a digit |
| Format.FixedReadsBack | modules/analysis.py:17 | the printed digits, with commas deleted, spell abs(x)·10^places rounded half-even |
| Format.FormatNumber | modules/analysis.py:17 | a float prints as Fixed, and a NaN float prints as "nan" |
| Indicators.MovingAverage | utils/data_handler.py:72-77 | one moving-average cell per row |
| Indicators.MovingAverageWindow | utils/data_handler.py:75 | capping the window at the table length gives the same column as the uncapped window |
| Indicators.MovingAverageFirst | utils/data_handler.py:74-77 | the first moving-average value is the first close |
| Indicators.MovingAverageBounds | utils/data_handler.py:74-77 | an MA cell is NaN exactly when its window holds no number, and otherwise lies within the window's bounds |
| Indicators.MovingAverageSlide | utils/data_handler.py:74-77 | over full windows with no NaN, consecutive averages differ by (entering − leaving)/w |
| Indicators.Delta | utils/data_handler.py:81 | `diff()` is the difference of neighbouring closes wherever both are numbers |
| Indicators.GainLoss | utils/data_handler.py:82-83 | gain and loss are non-negative, at most one is non-zero, both are 0 at row 0, and gain − loss is the delta |
| Indicators.AvgGain | utils/data_handler.py:84 | the gain average is the 14-row rolling mean of the gains, always a number |
| Indicators.AvgLoss | utils/data_handler.py:85 | the loss average is the 14-row rolling mean of the losses, always a number |
| Indicators.RsiCases | utils/data_handler.py:86-87 | for non-negative averages, RSI is NaN iff both are 0, is 100 iff only the loss is 0, and is otherwise 100·g/(g+l) in [0,100) |
| Indicators.RsiColumnCases | utils/data_handler.py:80-87 | the same case split holds per row of the RSI column |
| Indicators.RsiFirstUndefined | utils/data_handler.py:81-87 | the RSI of row 0 is NaN |
| Indicators.RsiConstantUndefined | utils/data_handler.py:81-87 | a series that never changes has NaN RSI on every row |
| Indicators.RsiRising | utils/data_handler.py:81-87 | a strictly rising series has RSI 100 from row 1 on |
| Indicators.Macd | utils/data_handler.py:91-93 | one MACD cell per row |
| Indicators.MacdFirst | utils/data_handler.py:91-94 | MACD and Signal both start at 0 |
| Indicators.MacdNoGaps | utils/data_handler.py:91-93 | with no NaN close, MACD is the difference of the span-12 and span-26 recurrences |
| Indicators.MacdConstant | utils/data_handler.py:91-94 | a constant series has MACD and Signal 0 on every row |
| Indicators.AddIndicator | utils/data_handler.py:72-94 | a column is added exactly when the table reaches its threshold; other columns and their order are untouched |
| Indicators.AddAllHas | utils/data_handler.py:72-94 | after all indicators, a column is present iff it was before or is an indicator whose threshold the length meets |
| Indicators.AddAllValues | utils/data_handler.py:72-94 | each indicator the length allows holds its computed cells |
| Indicators.AddAllKeeps | utils/data_handler.py:72-94 | columns that are not indicators keep their cells |
| Indicators.AddAllNames | utils/data_handler.py:72-94 | existing labels keep their positions, and only indicators are appended |
| Indicators.WithClose | utils/data_handler.py:68-69 | Close is present afterwards iff Close or Adj Close was; no other label appears, and existing cells are unchanged |
| Indicators.AdjCloseCopied | utils/data_handler.py:68-69 | when only Adj Close exists, Close becomes a copy of it, appended last |
| Indicators.CalculateTechnicalIndicators | utils/data_handler.py:64-100 | the result is a well-formed table; its contents are stated by the lemmas below |
| Indicators.IndicatorPresence | utils/data_handler.py:64-96 | with a price column nothing is raised, and an indicator is in the result iff the row count reaches its threshold (10, 25, 14, 26, 26) or it was already there |
| Indicators.IndicatorValues | utils/data_handler.py:64-96 | each added indicator holds the indicator of the price column on the rows dropna keeps |
| Indicators.ExistingColumnsKept | utils/data_handler.py:64-96 | every other column keeps its cells on the kept rows, which stay in increasing order |
| Indicators.AddedColumns | utils/data_handler.py:64-96 | the input's labels are a prefix of the output's, followed only by indicator labels and Close |
| Indicators.CloseRowKept | utils/data_handler.py:96 | a row whose close is not null is never dropped |
| Indicators.NoPriceColumn | utils/data_handler.py:73-100 | without Close or Adj Close, 10 or more rows raise and return the input unchanged; fewer add no column |
| Ols.NormalEquations | modules/forecasting.py:113-115 | the fitted line solves both normal equations of least squares |
| Ols.ResidualsBalance | modules/forecasting.py:113-115 | the fitted line's residuals sum to zero, and so do they when weighted by x |
| Ols.LeastSquares | modules/forecasting.py:113-115 | no line has a smaller sum of squared residuals than the fitted one |
| Ols.FitUnique | modules/forecasting.py:113-115 | with two or more rows, any line with no greater squared error is the fitted line |
| Ols.ExactLine | modules/forecasting.py:113-115 | points lying exactly on a line are fitted by that line |
| Forecasting.CleanCloses | modules/forecasting.py:43 | reference definition: the closes that convert to numbers, in row order, never more than the input |
| Forecasting.CleanClosesFilter | modules/forecasting.py:43 | coercing and then dropping NaN gives exactly the reference clean closes |
| Forecasting.Preprocess | modules/forecasting.py:33-44 | None iff the table is empty or has no Close; otherwise a one-column Close table with no NaN |
| Forecasting.PreprocessRows | modules/forecasting.py:43 | the cleaned table holds the reference closes, indexed by the dates of the rows that survive |
| Forecasting.CleanClosesCount | modules/forecasting.py:43 | the number of cleaned closes is the number of numbers after coercion |
| Forecasting.LinearForecast | modules/forecasting.py:105-122 | fails iff there is no history or no day to predict; otherwise one point per requested day |
| Forecasting.ForecastDates | modules/forecasting.py:117 | forecast dates start the day after the last date and advance one calendar day at a time |
| Forecasting.ForecastLeastSquares | modules/forecasting.py:113-121 | every prediction lies on the unique least-squares line of the history |
| Forecasting.ForecastOptimal | modules/forecasting.py:113-121 | the predictions come from a line that no other line beats on the history |
| Forecasting.ForecastExactLine | modules/forecasting.py:113-121 | closes lying on a line are continued along that line |
| Forecasting.ForecastConstant | modules/forecasting.py:113-121 | a flat history, even a single close, is projected flat |
| Forecasting.ShowForecast | modules/forecasting.py:12-27 | projects iff the table is non-empty with Close and at least 5 closes convert; otherwise shows the fixed banner; projects exactly the clean closes, dated by the rows whose close converts, over the chosen horizon |
| Forecasting.ForecastGuardBoundary | modules/forecasting.py:19-21 | four converting closes are refused and five accepted, whatever else the table holds |
| Forecasting.SafeFormat | modules/forecasting.py:65-72 | "N/A" exactly for a value that is not a float, NaN included as a float |
| Forecasting.SafeFormatReadsBack | modules/forecasting.py:69 | a formatted value reads back as the value rounded to hundredths |
| Analysis.FloatOf | modules/analysis.py:10 | float() of a cell `pd.notnull` accepts keeps a number and parses a string, failing where the string is not a number |
| Analysis.SafeGetValue | modules/analysis.py:6-12 | the result is a number or the default: the cell itself for a number, the parsed text, and the default for a null or unparsable cell; for an absent key, the default when it is null or a number (a text default is converted like a cell) |
| Analysis.SafeGetValueNumeric | modules/analysis.py:6-12 | on a numeric column, the lookup of a row is its cell, or the default where the cell is NaN |
| Analysis.FormatCurrency | modules/analysis.py:14-19 | "N/A" iff the value is not a float; otherwise the rupee sign followed by the grouped two-decimal number |
| Analysis.FormatCurrencyReadsBack | modules/analysis.py:17 | after the rupee sign and an optional minus, the digits read back as the amount rounded to paise |
| Analysis.DataInvalid | modules/analysis.py:42-44 | invalid iff the table has no rows or no Close column |
| Analysis.Arrow | modules/analysis.py:97 | the up arrow iff the change is at least 0, the down arrow iff it is negative |
| Analysis.DailyChange | modules/analysis.py:91-98 | "N/A" iff there is at most one row; otherwise the change of the last two closes, two decimals, "% ", and its arrow |
| Analysis.ChangeRoundTrip | modules/analysis.py:96 | applying the percentage change to the previous close gives back the current close |
| Analysis.ChangeSign | modules/analysis.py:96-97 | from a positive previous close, the change is non-negative iff the price did not fall, and zero iff it did not move |
| Analysis.DailyChangeZeroPrevious | modules/analysis.py:94-97 | a zero or missing previous close gives "0.00% ▲" instead of dividing by zero |
| Analysis.DailyChangeArrow | modules/analysis.py:96-97 | from a positive previous close, the arrow points up iff the last close did not fall |
| Analysis.FormatValue | modules/analysis.py:51-56 | "N/A" iff the value is null or float() fails on it; otherwise the fixed-point text of its float |
| Analysis.AnalysisFigures | modules/analysis.py:58-65 | fails iff Close, Low, High or Volume is absent, with the KeyError of the first one missing in prompt order; otherwise each of the seven figures is its cell formatted by `format_value` (prices with two decimals, volume grouped with none), an absent MA20, RSI or MACD reading "N/A" |
| Visualization.StripSuffix | modules/visualization.py:35 | the ticker tag is removed where it ends the label, or where only a final newline follows it; otherwise the label is unchanged |
| Visualization.StripSuffixRoundTrip | modules/visualization.py:35 | tagging a label and stripping it gives the label back |
| Visualization.StripSuffixUnchanged | modules/visualization.py:35 | a label is unchanged iff no tag ends it, with or without a final newline |
| Visualization.Renamed | modules/visualization.py:35 | every label is stripped, and the cells and column order are untouched |
| Visualization.CoerceColumns | modules/visualization.py:65 | the listed columns are coerced in place; all others and all labels are unchanged |
| Visualization.LookupCoerceColumns | modules/visualization.py:65 | a listed column reads back coerced, and any other as it was |
| Visualization.MissingPrices | modules/visualization.py:38-40 | the missing set is exactly the price columns the table lacks |
| Visualization.Coerced | modules/visualization.py:64-65 | the five OHLCV columns are coerced, and every other column is unchanged |
| Visualization.CoercedCloses | modules/visualization.py:65 | the coerced closes hold only numbers and NaN |
| Visualization.Normalized | modules/visualization.py:63-67 | labels are kept, and the Close column of the result holds no NaN |
| Visualization.ValidateAndNormalize | modules/visualization.py:28-67 | missing-columns error iff a price column is absent, with exactly those listed; KeyError on Volume iff prices are present but Volume is not; otherwise the normalised table |
| Visualization.NormalizedRows | modules/visualization.py:67 | each column keeps exactly the rows whose close converts to a number |
| Visualization.ValidateRows | modules/visualization.py:28-67 | the same row selection, stated on the labels as they arrive |
| Visualization.NormalizedNumeric | modules/visualization.py:65 | after normalisation every OHLCV column holds only numbers and NaN |
| Visualization.PresentMask | modules/visualization.py:107-110 | the mask marks exactly the candidate labels present as columns |
| Visualization.IndicatorOptions | modules/visualization.py:107-110 | the options are the present indicators in the fixed order; a label is offered iff it is an indicator and a column |
| Visualization.FilterMember | modules/visualization.py:107-110 | an element is in a filtered list iff it sits at a masked position |
| Visualization.OptionsAfterIndicators | modules/visualization.py:107-110 | on the table calculate_technical_indicators returns (before validation), an indicator is offered iff the table was long enough for it or already had it |
| Visualization.StripToIndicator | modules/visualization.py:35 | stripping the tag gives an indicator label exactly from that label, bare or tagged |
| Visualization.RenamedHasIndicator | modules/visualization.py:35 | after renaming, an indicator column is present iff it was, bare or under the ticker tag |
| Visualization.OtherLabelKept | utils/data_handler.py:64-96 | a label that is neither an indicator nor Close is in the indicator step's output iff it was in its input |
| Visualization.OptionsOnPage | modules/visualization.py:11-18 | on the chart page, which validates the indicator step's table first, an indicator is offered iff the step added it (long enough table), the input had it, or the input had it under the ticker tag |
| Visualization.VolumeAverage | modules/visualization.py:142 | each 30-day average is the NaN-skipping mean of at most 30 trailing volumes |
| Visualization.VolumeTable | modules/visualization.py:138-143 | on a numeric Volume column, a table exists iff Volume does; it has the two columns Volume and 30D Avg |
| Visualization.ValidatedVolume | modules/visualization.py:64-67 | the validated table always has a Volume column of numbers and NaN, so the volume table's requirement holds on the page |
| Visualization.AverageDefined | modules/visualization.py:142 | a row with a volume has a numeric average |
| Visualization.VolumeRows | modules/visualization.py:140-143 | on a coerced volume column, `dropna()` keeps exactly the rows with a volume, in order, with their volumes and their 30-day averages: the average never removes a row |
| Visualization.AverageBounds | modules/visualization.py:142 | each average lies within the volumes of its window |
| App.CountPresent | main.py:69-70 | the count of non-null closes is at most the column length |
| App.PresentPositions | main.py:69 | `dropna()` keeps exactly as many cells as are not null |
| App.DataValid | main.py:64-70 | an empty table is refused; a KeyError iff it is non-empty without Close; accepted iff at least 5 closes are non-null |
| App.PresentNumeric | main.py:69-70 | on a numeric column, the non-null closes are the numbers |
| App.ValidFeedsForecast | main.py:64-70 | on a table with numeric closes, the entry check accepts iff the forecasting page projects |
| App.Route | main.py:52-61 | a page is picked iff its label was chosen; no page for any other label |
| App.RouteLabel | main.py:56-61 | each page is reached from its own label |
| App.Show | main.py:6-14 | the KeyError propagates iff data_valid raises; the error notice iff the data is invalid; otherwise the header with the page whose label was chosen |
| LlmText.RemoveAll | utils/llm_helper.py:13 | `str.replace(pat, "")` never lengthens the string |
| LlmText.RemoveAbsent | utils/llm_helper.py:13 | a string without the pattern is left unchanged |
| LlmText.RunRemoved | utils/llm_helper.py:13 | after removing a run of three equal characters such as the code fence, no such run is left |
| LlmText.Strip | utils/llm_helper.py:12 | the result is a slice of the input with only whitespace outside it, and neither starts nor ends with whitespace |
| LlmText.StripIdempotent | utils/llm_helper.py:12 | stripping twice is stripping once |
| LlmText.Split | utils/llm_helper.py:12 | split always gives at least one piece |
| LlmText.SplitJoin | utils/llm_helper.py:12 | joining the pieces with the separator gives the string back |
| LlmText.SplitAbsent | utils/llm_helper.py:12 | a string without the separator is a single piece |
| LlmText.SplitLast | utils/llm_helper.py:12 | the last piece is the text after the last separator |
| LlmText.CleanLlmResponse | utils/llm_helper.py:9-13 | the cleaned answer is never longer and never contains a code fence |
| LlmText.CleanUnmarked | utils/llm_helper.py:9-13 | an answer with no think tag and no markers comes back unchanged |
| LlmText.CleanAfterThink | utils/llm_helper.py:11-13 | with a think tag, only the stripped text after the last closing tag is kept, with its markers removed |
| LlmText.CleanUnclosedThink | utils/llm_helper.py:11-13 | a think tag that is never closed only costs the surrounding whitespace |
| LlmText.BoldCanSurvive | utils/llm_helper.py:13 | removing the fences after the bold markers can join a new "**": "*```*" cleans to "**" |

## Left out

- Fetching prices (`get_stock_data`, yfinance) and the MultiIndex flattening are left out: network input and pandas label internals. The model starts from the fetched table.
- The LLM calls (`load_llm`, `llm.invoke`) and the prompt text beyond its formatted figures are left out: foreign code. Every Streamlit call (widgets, charts, `st.error` messages, caching) is left out too: UI side effects.
- The polynomial-regression branch of `generate_ml_forecast` (modules/forecasting.py:110-111) is left out. Only the linear model is specified; the polynomial one would need a 3×3 least-squares solve.
- The forecast prompt's 7-day `pct_change` mean and the standard deviation (modules/forecasting.py:77-78) are left out: prompt text only.
- `display_results`' metric strings (modules/analysis.py:84-85) are left out. They depend on Python's float `repr` and on `format(..., ',')` of a string default.
- Converting the index to datetimes (modules/visualization.py:56-61) is left out: dates are day numbers, so the index is always valid.
- The second required-columns check (modules/visualization.py:47-53) is left out. It tests exactly what lines 38-43 already returned on, so it can never fire.
- IEEE rounding, infinities in the input, negative zero and strings spelling nan/inf are left out: `parse` yields finite reals only, and arithmetic is exact.
- Indicators.CalculateTechnicalIndicators: requires the price column to hold numbers and NaN, never text. The text path is not modelled:
  - Numeric strings are converted by `rolling`.
  - Non-numeric text raises at the first rolling mean (from 10 rows). With 14 or more rows, any text column also raises at `diff()` (utils/data_handler.py:81).
  - The exception handler then returns the table as mutated so far, for example with MA20 and MA50 already added.
  - Below 10 rows nothing raises.
  - The caller (`get_stock_data`, utils/data_handler.py:55) always coerces before calling.
- Visualization.ValidateAndNormalize: requires the stripped labels to be distinct. pandas would allow duplicate labels after the rename; the model's tables do not.
- LlmText.CleanLlmResponse: does not promise that no "**" is left, because the code does not guarantee it (see LlmText.BoldCanSurvive).
- Analysis.FloatOf: requires a non-null cell, because the code only calls `float()` after `pd.notnull`; `float(nan)` itself would return NaN.
- Cells are float64 (or None or text): numpy integer cells and bools are not modelled. `format_currency` and `safe_format` test `isinstance(value, (int, float))` (modules/analysis.py:17, modules/forecasting.py:68). A numpy integer cell fails that test and prints "N/A", and a bool passes it, whereas the model formats every number. Price data arrives as float64, so this is the case the model covers.
- `float()` and `pd.to_numeric` share the one `parse` parameter, so the model assumes they accept the same strings. They do not quite: `float()` accepts `"1_000"`, which `pd.to_numeric` rejects.
- Visualization.VolumeTable: requires a Volume column of numbers and NaN. On text, `rolling` either converts numeric strings or raises, and the page then shows its error notice (modules/visualization.py:21-26). That path is not modelled. The only caller passes the validated table, whose Volume is coerced (modules/visualization.py:65; see Visualization.NormalizedNumeric).
- Visualization.StripSuffix: models the regex only for the fixed tag `_SBIN.NS`, as the code hard-codes it.
