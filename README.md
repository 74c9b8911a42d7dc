# Agent plugins: text statistics, random numbers, weather and timestamps

A Dafny model of the local plugins in `plugins.py`, the functions an agent
framework may call:

- `TextAnalysisPlugin.analyze_text` (module `TextAnalysisPlugin`, with Python's
  argument-less `str.split()` in module `StrSplit`): the character count, the
  word count, the count of `.`, `!` and `?`, and the mean word length, which is
  0 when the text has no words. The model returns a record (`Analysis`) with
  the four values.
- `RandomPlugin.generate_random_number` (module `RandomPlugin`): an integer
  from an inclusive range. `random.randint` raises `ValueError` when the range
  is inverted; the model returns `Failure(EmptyRange(..))` for that case. The
  draw is a non-deterministic choice.
- `WeatherPlugin.get_weather` (module `WeatherPlugin`): one of four canned
  reports, each a condition and temperature, then `" in "`, then the city. The
  pick is a non-deterministic choice.
- `DateTimePlugin.get_current_datetime` (module `DateTimePlugin`): the moment
  formatted as `YYYY-MM-DD HH:MM:SS`. The clock is not read: the moment is a
  parameter, and the model covers the formatting and a parser that inverts it.

Whitespace follows Python's `str.isspace()`: ASCII 9 to 13 and 28 to 32,
U+0085, U+00A0, U+1680, U+2000 to U+200A, U+2028, U+2029, U+202F, U+205F and
U+3000. `str.split()` with no arguments splits on exactly these characters.

The split is described independently in two ways. First, a text is its words
woven between whitespace-only gaps, where every gap between two words is
non-empty; `Split` gives the only such words (`SplitCharacterization`). Second,
the number of words is the number of maximal whitespace-free runs (`Runs`).

## Model

| member | source | states |
|---|---|---|
| `StrSplit.Split` | plugins.py:93 | every word `text.split()` returns is non-empty and contains no whitespace |
| `StrSplit.IsSpace` | plugins.py:93 | the separator set of `split()` with no arguments: the characters Python's `str.isspace()` accepts (defined, not proved) |
| `StrSplit.Gaps` | plugins.py:93 | the whitespace around and between the words is whitespace only, and each gap between two words is non-empty |
| `StrSplit.SplitReassembles` | plugins.py:93 | the gaps and words, woven together in order, give back the original text |
| `StrSplit.SplitOfWeave` | plugins.py:93 | any text written as words separated by whitespace splits into exactly those words |
| `StrSplit.SplitCharacterization` | plugins.py:93 | `Split(s) == words` holds if and only if some whitespace gaps weave `words` into `s` |
| `StrSplit.ConcatSplit` | plugins.py:93 | the words joined in order are the text with all whitespace removed, so their total length is at most the text's length |
| `StrSplit.SplitCountsRuns` | plugins.py:96 | the number of words is the number of maximal whitespace-free runs |
| `StrSplit.RunsBound` | plugins.py:96 | a text of `m` characters has at most `(m + 1) / 2` runs |
| `StrSplit.SplitEmptyIffBlank` | plugins.py:93 | the split is empty if and only if the text is empty or whitespace only |
| `TextAnalysisPlugin.Analyze` | plugins.py:93-98 | the statistics record of `analyze_text`: `len(text)`, the number of words of `Split`, the `.` plus `!` plus `?` counts, and the guarded mean word length; its properties are the lemmas below |
| `TextAnalysisPlugin.Count` | plugins.py:97 | `text.count(c)` for a one-character `c`: the occurrences of `c`, related to the multiset in `CountIsMultiplicity` |
| `TextAnalysisPlugin.AverageWordLength` | plugins.py:98 | the mean word length when there are words, else 0, with no division by zero (defined, not rounded) |
| `TextAnalysisPlugin.CountIsMultiplicity` | plugins.py:97 | `text.count(c)` for one character is the number of times `c` occurs in the text |
| `TextAnalysisPlugin.TerminatorCountBound` | plugins.py:97 | the `.`, `!` and `?` counts together are at most the text's length |
| `TextAnalysisPlugin.CharacterAndSentenceCounts` | plugins.py:95-97 | `character_count` is the length; `sentence_count` is the number of `.` plus `!` plus `?` characters and at most `character_count` |
| `TextAnalysisPlugin.WordCountIsRunCount` | plugins.py:96 | `word_count` is the number of maximal whitespace-free runs, and `2 * word_count <= character_count + 1` |
| `TextAnalysisPlugin.BlankTextHasNoWords` | plugins.py:96-98 | `word_count` is 0 exactly for empty or all-whitespace text, and then `average_word_length` is 0 |
| `TextAnalysisPlugin.WordLengthsWithinText` | plugins.py:98 | the total word length is the count of non-whitespace characters, at most `character_count` |
| `TextAnalysisPlugin.TotalLengthAtLeastCount` | plugins.py:98 | words of at least one character each have a total length of at least their number |
| `TextAnalysisPlugin.AverageOfWords` | plugins.py:98 | for a non-empty list of words, the mean times the count is the total length, and the mean lies between 1 and the total |
| `TextAnalysisPlugin.AverageWhenWordsExist` | plugins.py:98 | with at least one word, `average_word_length` before rounding is the total word length divided by `word_count`, between 1 and `character_count` |
| `TextAnalysisPlugin.AverageIsCharactersPerRun` | plugins.py:93-98 | with at least one word, `average_word_length` before rounding is the number of non-whitespace characters divided by the number of maximal whitespace-free runs |
| `TextAnalysisPlugin.EmptyTextAnalysis` | plugins.py:93-98 | the empty text gives four zeros |
| `TextAnalysisPlugin.ExampleAnalysis` | plugins.py:93-98 | `"Hi there. Go!"` gives 13 characters, 3 words, 2 sentence ends and average 11/3 |
| `TextAnalysisPlugin.ExampleSplit` | plugins.py:93 | `"Hi there. Go!"` splits into `"Hi"`, `"there."` and `"Go!"` |
| `RandomPlugin.Outcomes` | plugins.py:57 | `randint(min_val, max_val)` chooses among `max_val - min_val + 1` values, none for an inverted range |
| `RandomPlugin.OutcomesAreRange` | plugins.py:49-57 | a value is a possible result if and only if `min_val <= v <= max_val`, both bounds included |
| `RandomPlugin.GenerateRandomNumber` | plugins.py:49-59 | succeeds exactly when `min_val <= max_val`, with a result in the inclusive range; otherwise an empty-range error |
| `WeatherPlugin.Report` | plugins.py:31-36 | template `i` filled in: the condition and temperature, then `" in "`, then the city |
| `WeatherPlugin.Options` | plugins.py:31-36 | the four templates in the source's order (Sunny 72°F, Partly cloudy 68°F, Rainy 61°F, Overcast 65°F), each filled in with the city |
| `WeatherPlugin.GetWeather` | plugins.py:23-39 | the result is one of the four reports and ends with `" in "` and the city |
| `WeatherPlugin.OptionsDistinct` | plugins.py:31-36 | the four reports are pairwise different |
| `WeatherPlugin.CityOf` | plugins.py:31-36 | a city read back from a report is a city that report belongs to |
| `WeatherPlugin.TemplateOf` | plugins.py:31-36 | finds the first template a report starts with, or reports that none fits |
| `WeatherPlugin.ReportNamesCity` | plugins.py:31-37 | every report for a city reads back to that city, so no report belongs to two cities |
| `DateTimePlugin.Valid` | plugins.py:73 | the moments a Python `datetime` can hold: years 1 to 9999, real calendar days with leap years, hours, minutes and seconds in range (defined, not proved) |
| `DateTimePlugin.Digits` | plugins.py:74 | a number below `10^width` written with exactly `width` decimal digits |
| `DateTimePlugin.Format` | plugins.py:73-74 | the timestamp has the shape `YYYY-MM-DD HH:MM:SS`: 19 characters, digits apart from the separators |
| `DateTimePlugin.Parse` | plugins.py:74 | whatever parses is a valid moment |
| `DateTimePlugin.ParseFormat` | plugins.py:74 | parsing a formatted moment gives the moment back |
| `DateTimePlugin.FormatParse` | plugins.py:74 | a timestamp that parses is the formatting of what it parses to |

## Left out

- The rounding of `average_word_length` to two decimals and binary floating point: the model keeps the exact quotient as a `real`. The model also does not tell apart the source's two kinds of zero and whole numbers: with no words the source gives the integer `0`, which `json.dumps` writes as `0`, while a whole-number mean is a float and is written like `4.0`; the model has `0.0` and `4.0` alike.
- JSON serialisation with `json.dumps`: the model returns the four statistics as a record.
- Python strings can hold lone surrogate code points; Dafny characters cannot, so such texts are outside the model.
- The random source behind `random.choice` and `random.randint`, and with it the uniform distribution: results are non-deterministic choices from the allowed values.
- Reading the wall clock in `get_current_datetime`: the moment is a parameter. Local time zones and daylight saving are not modelled.
- DateTimePlugin.Format: pads the year to four digits. For years below 1000 the digits `%Y` prints depend on the C library behind `strftime`, and some print fewer.
- The three simulated retrieval plugins `get_insurance_context`, `get_banking_data` and `get_sales_analysis`: each is one call to an external chat-completion service with a fixed persona, with no local logic.
- The `print` diagnostics, the `kernel_function` names and descriptions, and the module-level creation of the plugin objects: these are logging and framework registration. The plugin classes have no fields, so no Dafny classes stand for them.
