# Vacancy salary statistics — a Dafny model

The program asks two job boards, HeadHunter and SuperJob, for Moscow
vacancies mentioning each of several programming languages. It turns every
vacancy's salary range into one rouble estimate and averages the usable
estimates per language. It then lays the per-language statistics out as
table rows: vacancies found, vacancies processed and average salary.

This project models the pure part of that pipeline in `vacancies.py`:

- `salary.dfy` (module `Salary`): the estimator `predict_rub_salary`.
- `adapters.dfy` (module `Adapters`): the vacancy record, the currency
  filters `predict_rub_salary_sj` and `predict_rub_salary_hh`, and the
  composed per-vacancy estimate.
- `aggregation.dfy` (module `Aggregation`): the page loops of
  `get_avg_salary_sj` and `get_avg_salary_hh`. Each HTTP response is replaced
  by the page of vacancies it returns. Both boards collect salaries with the
  same inner loop (vacancies.py:83-86, 124-127), differing only in the
  per-vacancy estimate, so the fold takes that estimate
  (`Adapters.SjEstimate` or `Adapters.HhEstimate`) as a parameter. Where
  `found` and the page count come from differs between the boards (see the
  conventions below). The module also covers the statistics record per
  language, `int(mean(...))`, and the outer loop that fills the result dict.
- `dict.dfy` (module `Dict`): Python's insertion-ordered `dict`. Assigning to
  an existing key replaces its value in place; a new key goes last.
- `decimal.dfy` (module `Decimal`): `str` on non-negative integers, with its
  inverse.
- `table.dfy` (module `Table`): the list of rows built by
  `get_beautiful_table`.
- `wrappers.dfy` (module `Wrappers`): `Option` and `Result`.

Modelling conventions:

- A salary bound is a `nat`, and 0 means absent. The program only tests
  bounds for truthiness, so `None` and `0` behave the same.
- An estimate is an `Option<nat>`, where `None` is Python's `None`.
- `upper * 0.8`, `lower * 1.2` and `int(mean([lower, upper]))` are modelled as
  the exact floors ⌊4·upper/5⌋, ⌊6·lower/5⌋ and ⌊(lower+upper)/2⌋. This
  assumes non-negative salaries of realistic size, where the float
  computation gives the same integer.
- `int(mean(salaries))` over the kept (positive) estimates is ⌊sum/count⌋.
  When no estimate was kept, `statistics.mean` raises. Here that is `None` for
  the language, and the report becomes `Failure(NoProcessedVacancies(language))`
  for the first such language, because the exception ends the whole run.
- SuperJob's `found` is the running sum of page lengths. Every SuperJob
  language is fetched in exactly `SjPageCount` = 2 pages.
- HeadHunter's `found` and page count come from the server. They are inputs
  to the model: the report takes each language's pages together with the
  `found` figure of the last response. At least one page is always fetched.

Two behaviours of the code are kept as they are:

- A language with no usable salary makes `statistics.mean` raise, which ends
  the whole run. The model reports this as
  `Failure(NoProcessedVacancies(language))` for the first such language.
- The HeadHunter adapter drops rouble ranges that have only a lower bound, so
  such a vacancy never gets an estimate (see Findings).

## Model

| member | source | states |
|---|---|---|
| Salary.PredictRubSalary | vacancies.py:8-14 | An estimate exists iff some bound is present. With both bounds it is the truncated mean and lies between them. With only the upper bound it is ⌊4·upper/5⌋ and at most the bound. With only the lower bound it is ⌊6·lower/5⌋ and at least the bound. The only zero (falsy) estimate comes from the range (absent, 1). |
| Salary.EstimatorExamples | vacancies.py:8-14 | (100,200)→150, (absent,200)→160, (100,absent)→120, (absent,absent)→None. |
| Adapters.SjBounds | vacancies.py:17-25 | A currency other than `rub` gives (absent, absent). A rouble vacancy's bounds pass through unchanged, whichever of them are present. |
| Adapters.HhBounds | vacancies.py:27-35 | A currency other than `RUR` gives (absent, absent). With an upper bound, the bounds pass through. Without an upper bound the result is (absent, absent), so a lower bound alone is lost. |
| Adapters.SjEstimate | vacancies.py:125 | A SuperJob vacancy has an estimate iff it is in `rub` and has some bound. A rouble vacancy's estimate is the estimator's figure for its own bounds, so a lower bound alone is estimated from that bound. |
| Adapters.HhEstimate | vacancies.py:84 | A HeadHunter vacancy has an estimate iff it is in `RUR` and has an upper bound. Such an estimate is the estimator's figure for the vacancy's own bounds. |
| Adapters.CurrencyMismatchHasNoEstimate | vacancies.py:17-29 | A vacancy in the wrong currency for its board has no estimate. |
| Adapters.HhLowerOnlyDropped | vacancies.py:34-35 | The RUR vacancy (100000, absent) has no HeadHunter estimate, though the estimator would give 120000 for it. |
| Adapters.HhBoundsFixed | vacancies.py:27-35 | Corrected HeadHunter adapter: a rouble vacancy's bounds pass through unchanged, as SuperJob's do. |
| Adapters.HhFixedDiffersOnlyOnLowerOnly | vacancies.py:30-35 | The corrected and the written HeadHunter adapters differ exactly on rouble vacancies with a lower bound only. On those, the corrected one yields an estimate. |
| Aggregation.KeptOf | vacancies.py:125-127 | A vacancy with a truthy (present, non-zero) estimate contributes exactly that estimate, once. Any other vacancy contributes nothing. |
| Aggregation.KeptOnPage | vacancies.py:124-127 | A page contributes at most as many salaries as it has vacancies, all positive. |
| Aggregation.Kept | vacancies.py:112-129 | The salaries kept across all pages number at most the vacancies found, and all are positive. |
| Aggregation.TotalFoundCountsAll | vacancies.py:128 | The running `vacancies_found += len(vacancies)` counts every vacancy on every page exactly once. |
| Aggregation.KeptOnPageAppend | vacancies.py:124-127 | Keeping is compositional: a page split in two keeps what its first half keeps followed by what its second half keeps. |
| Aggregation.KeptIsFlat | vacancies.py:112-129 | The salaries kept page by page equal those kept from all the vacancies in fetch order as one run. |
| Aggregation.KeptOnPageCount | vacancies.py:124-127 | A salary x occurs among a page's kept salaries exactly as often as there are vacancies on the page whose estimate is x > 0. |
| Aggregation.KeptOnPageLength | vacancies.py:124-127 | A page keeps exactly as many salaries as it has vacancies with a truthy estimate. |
| Aggregation.KeptLength | vacancies.py:112-132 | Across all pages, `vacancies_processed` (`len(salaries)`) is the number of vacancies with a truthy estimate. |
| Aggregation.KeptCount | vacancies.py:112-129 | Across all pages, each salary x occurs among the kept salaries as often as there are vacancies whose estimate is x > 0. |
| Aggregation.CollectFromPage | vacancies.py:124-127 | The inner loop appends exactly the page's truthy estimates, in page order, to the running list. |
| Aggregation.CollectSalaries | vacancies.py:108-129 | The page loop leaves the list of kept salaries and the total of page lengths as `found`, and processed ≤ found. |
| Aggregation.KeptOnPageExactly | vacancies.py:124-127 | A salary x is kept from a page iff some vacancy on it has the estimate x > 0. |
| Aggregation.KeptExactly | vacancies.py:112-129 | A salary x is kept from the pages iff some vacancy on some page has the estimate x > 0. |
| Aggregation.Average | vacancies.py:133 | The average exists iff the list is non-empty. It is the truncated quotient of the sum by the count and lies between the smallest and the largest salary. |
| Aggregation.LanguageStatistics | vacancies.py:130-134 | Statistics exist iff some salary was kept. They then record `found` and the number kept as processed. The average is `int(mean(...))` of the kept salaries, the truncated quotient of their sum by their count, and lies between the extreme kept salaries. |
| Aggregation.SjLanguageStatistics | vacancies.py:107-134 | SuperJob statistics exist iff a salary was kept from the two pages. `found` is then the number of vacancies on them, processed is the number kept and at most `found`, and the average is the kept salaries' truncated mean, within their range. |
| Aggregation.HhLanguageStatistics | vacancies.py:66-93 | HeadHunter statistics exist iff a salary was kept. `found` is then the server's figure, processed is the number kept, and the average is the kept salaries' truncated mean, within their range. |
| Aggregation.Summarize | vacancies.py:107-135 | The language loop succeeds iff every language has statistics. Otherwise it fails naming the first language without any, all earlier ones having statistics. |
| Aggregation.SummarizeKeys | vacancies.py:107-135 | A successful result dict has each input language as a key exactly once, and no other keys. |
| Aggregation.SummarizeLookup | vacancies.py:130-134 | In a successful result dict a language maps to the statistics of its last occurrence in the input. |
| Aggregation.SummarizeDistinct | vacancies.py:107-135 | With distinct language names the result dict lists the languages in input order, each with its own statistics. |
| Aggregation.SummarizeByKept | vacancies.py:107-135 | When a language has statistics exactly if it kept a salary, the language loop succeeds iff every language kept one, and a failure names the first language that kept none. |
| Aggregation.SjReport | vacancies.py:97-135 | The SuperJob report succeeds iff every language kept at least one salary. Otherwise it fails naming the first language that kept none, every earlier language having kept one. |
| Aggregation.HhReport | vacancies.py:57-94 | The HeadHunter report succeeds iff every language kept at least one salary. Otherwise it fails naming the first language that kept none, every earlier language having kept one. |
| Aggregation.SjReportStatistics | vacancies.py:128-133 | In a successful SuperJob report with distinct languages, entry i is language i. Its found is the vacancy count of its pages, its processed is the number kept (at most found), and its average is the truncated mean of the kept salaries. |
| Aggregation.HhReportStatistics | vacancies.py:66-93 | In a successful HeadHunter report with distinct languages, entry i is language i. Its found is the server's figure, its processed is the number kept, and its average is the truncated mean of the kept salaries. |
| Dict.Assign | vacancies.py:130 | `d[k] = v` leaves the dict's size unchanged for a present key and grows it by one for a new key. |
| Dict.AssignLookup | vacancies.py:130 | After `d[k] = v`, `k` maps to `v` and every other key keeps its value. |
| Dict.AssignKeys | vacancies.py:130 | `d[k] = v` keeps an existing key in place and appends a new one. Distinct keys stay distinct. |
| Dict.AssignAppends | vacancies.py:130 | Assigning a new key appends exactly one entry (k, v). |
| Decimal.NatToString | vacancies.py:50 | `str(n)` is a non-empty string of decimal digits with no leading zero. |
| Decimal.DigitsValueOfNatToString | vacancies.py:50 | Reading the digits of `str(n)` gives back n. |
| Decimal.ParseNatToString | vacancies.py:50 | `int(str(n)) == n`. |
| Decimal.NatToStringInjective | vacancies.py:50 | Different numbers have different string forms. |
| Table.Row | vacancies.py:47-51 | A data row has the header's four cells: the language, then `str` of found, processed and average in that order. Each statistic cell reads back as its number. |
| Table.Rows | vacancies.py:37-52 | There is one header row, then one row per language in the dict's order, and row i + 1 is the row of language i. |
| Table.RowsCells | vacancies.py:37-52 | Every row has four cells. Row i + 1 starts with language i's name, its other cells are `str` of found, processed and average, and they read back as those numbers. |

## Left out

- HTTP requests, `raise_for_status` and JSON decoding (vacancies.py:80-82, 121-123) are network I/O. Each response is replaced by the page of vacancies it carries.
- The request payloads (specialisation, area, period, page size 100) only shape the server's answer and are not modelled.
- HeadHunter pagination and `found` (vacancies.py:87-90) are read from the server. They are inputs here, so no relation between found and processed is claimed for HeadHunter.
- The rendering by `AsciiTable` and the title argument (vacancies.py:53-54) belong to a foreign library whose output format is not visible. The model stops at the list of rows.
- `load_dotenv`, `os.environ` and the `__main__` driver (vacancies.py:138-161) are configuration and I/O.
- Salary.PredictRubSalary: float products and `int(...)` are modelled as exact floor ratios, assuming non-negative salaries of realistic size. Rounding of `0.8`/`1.2` in binary floating point is not modelled.
- Aggregation.Average: `statistics.mean` is modelled as exact ⌊sum/count⌋ on non-negative salaries, not as its float result.
- Negative salary bounds and a missing HeadHunter `salary` object are not modelled. The model's bounds are `nat`, and the HeadHunter search asks only for vacancies with a salary.
- Aggregation.Summarize: the raised `StatisticsError` is modelled as an error naming the language, not as the exception's message.

## Findings

| source | as written | input that shows it | evidently intended | confidence | as-written member | corrected member |
|---|---|---|---|---|---|---|
| vacancies.py:34-35 | the lower-bound-only branch returns `vacancy['to'], None`, and `to` is absent there | the RUR salary (from 100000, to absent) gets no estimate, so it never counts as processed | return `vacancy['from'], None`, estimated at 120000 | high, not executed | Adapters.HhLowerOnlyDropped | Adapters.HhBoundsFixed |

The as-written adapter `Adapters.HhBounds` is what the program computes, so
`Aggregation.HhReport` composes it and the report matches the program's
output. The corrected adapter `Adapters.HhBoundsFixed` passes a rouble
vacancy's bounds through unchanged. `Adapters.HhFixedDiffersOnlyOnLowerOnly`
proves that it changes the result exactly on the vacancies the bug drops.
