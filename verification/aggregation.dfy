/**
  Per-language aggregation: the body of the page loops in `get_avg_salary_hh`
  and `get_avg_salary_sj`, with the HTTP requests replaced by the pages they
  return.
 */
module Aggregation {
  import opened Wrappers
  import opened Adapters
  import opened Dict

  /** One page of search results. */
  type Page = seq<Vacancy>

  /** A board's per-vacancy estimate: its adapter composed with the estimator. */
  type Estimator = Vacancy -> Option<nat>

  /** SuperJob is always asked for exactly this many pages per language. */
  const SjPageCount: nat := 2

  /** The statistics reported for one language, in the order the program inserts them. */
  datatype Statistics = Statistics(found: nat, processed: nat, average: nat)

  /** A language for which no vacancy gave a usable salary: `statistics.mean` raises. */
  datatype Error = NoProcessedVacancies(language: string)

  /** Python truthiness of an estimate: present and non-zero. */
  predicate Truthy(o: Option<nat>) {
    o.Some? && o.value > 0
  }

  /** `v` contributes the salary `x` to the list. */
  predicate Yields(estimate: Estimator, v: Vacancy, x: nat) {
    x > 0 && estimate(v) == Some(x)
  }

  /** What the `if predicted_salary` test appends for one vacancy. */
  function KeptOf(estimate: Estimator, v: Vacancy): (kept: seq<nat>)
    // a truthy estimate is appended once ...
    ensures Truthy(estimate(v)) ==> kept == [estimate(v).value]
    // ... and anything else is skipped
    ensures !Truthy(estimate(v)) ==> kept == []
  {
    match estimate(v)
    case Some(s) => if s != 0 then [s] else []
    case None => []
  }

  /** The estimates kept from one page: the truthy ones, in page order. */
  function KeptOnPage(estimate: Estimator, page: Page): (kept: seq<nat>)
    ensures |kept| <= |page|
    ensures forall k :: 0 <= k < |kept| ==> kept[k] > 0
  {
    if |page| == 0 then []
    else KeptOnPage(estimate, page[..|page| - 1]) + KeptOf(estimate, page[|page| - 1])
  }

  lemma KeptOnPageSnoc(estimate: Estimator, page: Page, j: nat)
    requires j < |page|
    ensures KeptOnPage(estimate, page[..j + 1]) == KeptOnPage(estimate, page[..j]) + KeptOf(estimate, page[j])
  {
    assert page[..j + 1][..j] == page[..j];
  }

  /** All vacancies of all pages, in fetch order. */
  function Flatten(pages: seq<Page>): seq<Vacancy> {
    if |pages| == 0 then [] else Flatten(pages[..|pages| - 1]) + pages[|pages| - 1]
  }

  /** The number of vacancies on all pages: the running `vacancies_found += len(vacancies)`. */
  function TotalFound(pages: seq<Page>): nat {
    if |pages| == 0 then 0
    else TotalFound(pages[..|pages| - 1]) + |pages[|pages| - 1]|
  }

  /** `vacancies_found` counts every vacancy on every page once. */
  lemma {:induction false} TotalFoundCountsAll(pages: seq<Page>)
    ensures TotalFound(pages) == |Flatten(pages)|
    decreases |pages|
  {
    if |pages| > 0 {
      TotalFoundCountsAll(pages[..|pages| - 1]);
    }
  }

  /** The estimates kept from all pages, in fetch order. */
  function Kept(estimate: Estimator, pages: seq<Page>): (kept: seq<nat>)
    ensures |kept| <= TotalFound(pages)
    ensures forall k :: 0 <= k < |kept| ==> kept[k] > 0
  {
    if |pages| == 0 then []
    else Kept(estimate, pages[..|pages| - 1]) + KeptOnPage(estimate, pages[|pages| - 1])
  }

  /** Keeping is compositional: a page split in two keeps what its halves keep. */
  lemma {:induction false} KeptOnPageAppend(estimate: Estimator, a: Page, b: Page)
    ensures KeptOnPage(estimate, a + b) == KeptOnPage(estimate, a) + KeptOnPage(estimate, b)
    decreases |b|
  {
    if |b| == 0 {
      assert a + b == a;
    } else {
      var n := |b| - 1;
      assert (a + b)[..|a + b| - 1] == a + b[..n];
      assert (a + b)[|a + b| - 1] == b[n];
      KeptOnPageAppend(estimate, a, b[..n]);
    }
  }

  /** The salaries kept across pages are those kept from all their vacancies in one run. */
  lemma {:induction false} KeptIsFlat(estimate: Estimator, pages: seq<Page>)
    ensures Kept(estimate, pages) == KeptOnPage(estimate, Flatten(pages))
    decreases |pages|
  {
    if |pages| > 0 {
      var n := |pages| - 1;
      KeptIsFlat(estimate, pages[..n]);
      KeptOnPageAppend(estimate, Flatten(pages[..n]), pages[n]);
    }
  }

  /** The positions on a page whose vacancy yields `x`. */
  function Yielding(estimate: Estimator, page: Page, x: nat): set<nat> {
    set j | 0 <= j < |page| && Yields(estimate, page[j], x)
  }

  /** The positions on a page whose vacancy has a truthy estimate. */
  function Usable(estimate: Estimator, page: Page): set<nat> {
    set j | 0 <= j < |page| && Truthy(estimate(page[j]))
  }

  lemma YieldingSnoc(estimate: Estimator, init: Page, v: Vacancy, x: nat)
    ensures |Yielding(estimate, init + [v], x)| ==
      |Yielding(estimate, init, x)| + if Yields(estimate, v, x) then 1 else 0
  {
    var n := |init|;
    var page := init + [v];
    var before := Yielding(estimate, init, x);
    var after := Yielding(estimate, page, x);
    forall j
      ensures j in after <==> j in before || (j == n && Yields(estimate, v, x))
    {
      if 0 <= j < n {
        assert page[j] == init[j];
      }
    }
    if Yields(estimate, v, x) {
      assert after == before + {n};
    } else {
      assert after == before;
    }
  }

  lemma UsableSnoc(estimate: Estimator, init: Page, v: Vacancy)
    ensures |Usable(estimate, init + [v])| ==
      |Usable(estimate, init)| + if Truthy(estimate(v)) then 1 else 0
  {
    var n := |init|;
    var page := init + [v];
    var before := Usable(estimate, init);
    var after := Usable(estimate, page);
    forall j
      ensures j in after <==> j in before || (j == n && Truthy(estimate(v)))
    {
      if 0 <= j < n {
        assert page[j] == init[j];
      }
    }
    if Truthy(estimate(v)) {
      assert after == before + {n};
    } else {
      assert after == before;
    }
  }

  /** A vacancy contributes a salary once exactly when its estimate is that salary and truthy. */
  lemma KeptOfCount(estimate: Estimator, v: Vacancy, x: nat)
    ensures multiset(KeptOf(estimate, v))[x] == if Yields(estimate, v, x) then 1 else 0
  {
  }

  /** Each salary is kept from a page once per vacancy whose truthy estimate it is. */
  lemma {:induction false} KeptOnPageCount(estimate: Estimator, page: Page, x: nat)
    ensures multiset(KeptOnPage(estimate, page))[x] == |Yielding(estimate, page, x)|
    decreases |page|
  {
    if |page| > 0 {
      var n := |page| - 1;
      var init, v := page[..n], page[n];
      assert page == init + [v];
      YieldingSnoc(estimate, init, v, x);
      var before, last := KeptOnPage(estimate, init), KeptOf(estimate, v);
      KeptOnPageCount(estimate, init, x);
      KeptOfCount(estimate, v, x);
      assert KeptOnPage(estimate, page) == before + last;
      assert multiset(before + last) == multiset(before) + multiset(last);
    }
  }

  /** A page keeps exactly one salary per vacancy with a truthy estimate. */
  lemma {:induction false} KeptOnPageLength(estimate: Estimator, page: Page)
    ensures |KeptOnPage(estimate, page)| == |Usable(estimate, page)|
    decreases |page|
  {
    if |page| > 0 {
      var n := |page| - 1;
      KeptOnPageLength(estimate, page[..n]);
      assert page == page[..n] + [page[n]];
      UsableSnoc(estimate, page[..n], page[n]);
    }
  }

  /** Across all pages, `vacancies_processed` is the number of vacancies with a truthy estimate. */
  lemma KeptLength(estimate: Estimator, pages: seq<Page>)
    ensures |Kept(estimate, pages)| == |Usable(estimate, Flatten(pages))|
  {
    KeptIsFlat(estimate, pages);
    KeptOnPageLength(estimate, Flatten(pages));
  }

  /** Across all pages, each salary is kept once per vacancy whose truthy estimate it is. */
  lemma KeptCount(estimate: Estimator, pages: seq<Page>, x: nat)
    ensures multiset(Kept(estimate, pages))[x] == |Yielding(estimate, Flatten(pages), x)|
  {
    KeptIsFlat(estimate, pages);
    KeptOnPageCount(estimate, Flatten(pages), x);
  }

  function Sum(s: seq<nat>): nat {
    if |s| == 0 then 0 else Sum(s[..|s| - 1]) + s[|s| - 1]
  }

  function Smallest(s: seq<nat>): (m: nat)
    requires |s| > 0
    ensures m in s
    ensures forall k :: 0 <= k < |s| ==> m <= s[k]
  {
    if |s| == 1 then s[0]
    else
      var m := Smallest(s[..|s| - 1]);
      if s[|s| - 1] < m then s[|s| - 1] else m
  }

  function Largest(s: seq<nat>): (m: nat)
    requires |s| > 0
    ensures m in s
    ensures forall k :: 0 <= k < |s| ==> s[k] <= m
  {
    if |s| == 1 then s[0]
    else
      var m := Largest(s[..|s| - 1]);
      if s[|s| - 1] > m then s[|s| - 1] else m
  }

  /** A sum of values between `lo` and `hi` lies between `|s| * lo` and `|s| * hi`. */
  lemma {:induction false} SumBetween(s: seq<nat>, lo: nat, hi: nat)
    requires forall k :: 0 <= k < |s| ==> lo <= s[k] <= hi
    ensures |s| * lo <= Sum(s) <= |s| * hi
  {
    if |s| > 0 {
      SumBetween(s[..|s| - 1], lo, hi);
      assert |s| * lo == (|s| - 1) * lo + lo;
      assert |s| * hi == (|s| - 1) * hi + hi;
    }
  }

  lemma MulMonotonic(x: nat, y: nat, n: nat)
    requires x <= y
    ensures x * n <= y * n
  {
  }

  lemma DivMonotonic(a: nat, b: nat, n: nat)
    requires n > 0 && a <= b
    ensures a / n <= b / n
  {
    var qa, qb := a / n, b / n;
    assert qa * n <= a && b < qb * n + n;
    if qa > qb {
      MulMonotonic(qb + 1, qa, n);
    }
  }

  /** Truncated division by `n` keeps a total of `n` values in `[lo, hi]` inside `[lo, hi]`. */
  lemma QuotientBetween(total: nat, n: nat, lo: nat, hi: nat)
    requires n > 0 && n * lo <= total <= n * hi
    ensures lo <= total / n <= hi
    ensures n * (total / n) <= total < n * (total / n + 1)
  {
    assert (n * lo) / n == lo;
    assert (n * hi) / n == hi;
    DivMonotonic(n * lo, total, n);
    DivMonotonic(total, n * hi, n);
  }

  /** `int(mean(salaries))`: None when there is nothing to average. */
  function Average(salaries: seq<nat>): (r: Option<nat>)
    ensures r.Some? <==> |salaries| > 0
    // the average lies between the smallest and the largest salary
    ensures r.Some? ==> Smallest(salaries) <= r.value <= Largest(salaries)
    // and is the truncated quotient of the total by the count
    ensures r.Some? ==> |salaries| * r.value <= Sum(salaries) < |salaries| * (r.value + 1)
  {
    if |salaries| == 0 then None
    else
      SumBetween(salaries, Smallest(salaries), Largest(salaries));
      QuotientBetween(Sum(salaries), |salaries|, Smallest(salaries), Largest(salaries));
      Some(Sum(salaries) / |salaries|)
  }

  /** The statistics record for `found` vacancies of which `salaries` were usable. */
  function LanguageStatistics(found: nat, salaries: seq<nat>): (r: Option<Statistics>)
    ensures r.Some? <==> |salaries| > 0
    ensures r.Some? ==>
      && r.value.found == found
      && r.value.processed == |salaries|
      && r.value.average == Average(salaries).value
      && |salaries| * r.value.average <= Sum(salaries) < |salaries| * (r.value.average + 1)
      && Smallest(salaries) <= r.value.average <= Largest(salaries)
  {
    match Average(salaries)
    case None => None
    case Some(a) => Some(Statistics(found, |salaries|, a))
  }

  /** One SuperJob language: `found` counts every vacancy on the fetched pages. */
  function SjLanguageStatistics(pages: seq<Page>): (r: Option<Statistics>)
    requires |pages| == SjPageCount
    ensures r.Some? <==> |Kept(SjEstimate, pages)| > 0
    ensures r.Some? ==>
      && r.value.found == TotalFound(pages)
      && r.value.processed == |Kept(SjEstimate, pages)|
      && r.value.processed <= r.value.found
      && r.value.average == Average(Kept(SjEstimate, pages)).value
      && Smallest(Kept(SjEstimate, pages)) <= r.value.average <= Largest(Kept(SjEstimate, pages))
  {
    LanguageStatistics(TotalFound(pages), Kept(SjEstimate, pages))
  }

  /**
    One HeadHunter language: `found` is the figure the server reported with
    the last page, and the pages are however many the server announced (the
    first page is always fetched).
   */
  function HhLanguageStatistics(pages: seq<Page>, reportedFound: nat): (r: Option<Statistics>)
    requires |pages| >= 1
    ensures r.Some? <==> |Kept(HhEstimate, pages)| > 0
    ensures r.Some? ==>
      && r.value.found == reportedFound
      && r.value.processed == |Kept(HhEstimate, pages)|
      && r.value.average == Average(Kept(HhEstimate, pages)).value
      && Smallest(Kept(HhEstimate, pages)) <= r.value.average <= Largest(Kept(HhEstimate, pages))
  {
    LanguageStatistics(reportedFound, Kept(HhEstimate, pages))
  }

  /** The inner loop over one page: truthy estimates are appended to `salaries`. */
  method CollectFromPage(estimate: Estimator, vacancies: Page, salaries: seq<nat>) returns (salaries': seq<nat>)
    ensures salaries' == salaries + KeptOnPage(estimate, vacancies)
  {
    salaries' := salaries;
    var j := 0;
    while j < |vacancies|
      invariant j <= |vacancies|
      invariant salaries' == salaries + KeptOnPage(estimate, vacancies[..j])
    {
      ghost var done := KeptOnPage(estimate, vacancies[..j]);
      KeptOnPageSnoc(estimate, vacancies, j);
      var predicted := estimate(vacancies[j]);
      if predicted.Some? && predicted.value != 0 {
        assert KeptOf(estimate, vacancies[j]) == [predicted.value];
        salaries' := salaries' + [predicted.value];
        assert salaries' == salaries + (done + [predicted.value]);
      } else {
        assert KeptOf(estimate, vacancies[j]) == [];
        assert done + [] == done;
      }
      j := j + 1;
    }
    assert vacancies[..j] == vacancies;
  }

  /**
    The page loop as the program runs it: every vacancy of every page is
    estimated, truthy estimates are appended, and each page adds its length to
    the running count.
   */
  method CollectSalaries(estimate: Estimator, pages: seq<Page>) returns (salaries: seq<nat>, found: nat)
    ensures salaries == Kept(estimate, pages)
    ensures found == TotalFound(pages)
    ensures |salaries| <= found
  {
    salaries, found := [], 0;
    var page := 0;
    while page < |pages|
      invariant page <= |pages|
      invariant salaries == Kept(estimate, pages[..page])
      invariant found == TotalFound(pages[..page])
    {
      assert pages[..page + 1][..page] == pages[..page];
      salaries := CollectFromPage(estimate, pages[page], salaries);
      found := found + |pages[page]|;
      page := page + 1;
    }
    assert pages[..page] == pages;
  }

  /** Some vacancy on `page` has the truthy estimate `x`. */
  predicate YieldsOnPage(estimate: Estimator, page: Page, x: nat) {
    exists j :: 0 <= j < |page| && Yields(estimate, page[j], x)
  }

  /** A salary is kept from a page exactly when it is the truthy estimate of one of its vacancies. */
  lemma {:induction false} KeptOnPageExactly(estimate: Estimator, page: Page, x: nat)
    ensures x in KeptOnPage(estimate, page) <==> YieldsOnPage(estimate, page, x)
    decreases |page|
  {
    if |page| > 0 {
      var n := |page| - 1;
      var init := page[..n];
      KeptOnPageExactly(estimate, init, x);
      assert x in KeptOf(estimate, page[n]) <==> Yields(estimate, page[n], x);
      assert forall j :: 0 <= j < n ==> init[j] == page[j];
    }
  }

  /** A salary is kept from the pages exactly when it is the truthy estimate of one of their vacancies. */
  lemma {:induction false} KeptExactly(estimate: Estimator, pages: seq<Page>, x: nat)
    ensures x in Kept(estimate, pages) <==> exists p :: 0 <= p < |pages| && YieldsOnPage(estimate, pages[p], x)
    decreases |pages|
  {
    if |pages| > 0 {
      var n := |pages| - 1;
      var init := pages[..n];
      KeptExactly(estimate, init, x);
      KeptOnPageExactly(estimate, pages[n], x);
      assert Kept(estimate, pages) == Kept(estimate, init) + KeptOnPage(estimate, pages[n]);
      if x in Kept(estimate, init) {
        var p :| 0 <= p < n && YieldsOnPage(estimate, init[p], x);
        assert init[p] == pages[p];
      }
      if exists p :: 0 <= p < |pages| && YieldsOnPage(estimate, pages[p], x) {
        var p :| 0 <= p < |pages| && YieldsOnPage(estimate, pages[p], x);
        if p < n {
          assert init[p] == pages[p];
        }
      }
    }
  }

  /** `i` is the first language without statistics. */
  predicate FirstMissing(results: seq<Option<Statistics>>, i: nat) {
    && i < |results|
    && results[i].None?
    && forall j :: 0 <= j < i ==> results[j].Some?
  }

  /**
    The outer loop over languages: each language's statistics are assigned
    into the result dict in turn, and the first language without a usable
    salary aborts the run.
   */
  function Summarize(languages: seq<string>, results: seq<Option<Statistics>>): (r: Result<Dict<string, Statistics>, Error>)
    requires |results| == |languages|
    ensures r.Success? <==> forall i :: 0 <= i < |results| ==> results[i].Some?
    ensures r.Failure? ==>
      exists i: nat :: FirstMissing(results, i) && r.error == NoProcessedVacancies(languages[i])
    decreases |languages|
  {
    if |languages| == 0 then Success([])
    else
      var n := |languages| - 1;
      assert forall j :: 0 <= j < n ==> results[..n][j] == results[j];
      assert forall i: nat :: FirstMissing(results[..n], i) ==> FirstMissing(results, i);
      assert forall j :: 0 <= j < n ==> languages[..n][j] == languages[j];
      match Summarize(languages[..n], results[..n])
      case Failure(e) => Failure(e)
      case Success(d) =>
        match results[n]
        case None => Failure(NoProcessedVacancies(languages[n]))
        case Some(st) => Success(Assign(d, languages[n], st))
  }

  /** A successful summary extends the summary of all but the last language by one assignment. */
  lemma SummarizeStep(languages: seq<string>, results: seq<Option<Statistics>>)
    requires |results| == |languages| > 0
    requires Summarize(languages, results).Success?
    ensures Summarize(languages[..|languages| - 1], results[..|languages| - 1]).Success?
    ensures results[|languages| - 1].Some?
    ensures Summarize(languages, results).value ==
      Assign(Summarize(languages[..|languages| - 1], results[..|languages| - 1]).value,
             languages[|languages| - 1], results[|languages| - 1].value)
  {
  }

  /** A successful summary has exactly the input languages as keys, each once. */
  lemma {:induction false} SummarizeKeys(languages: seq<string>, results: seq<Option<Statistics>>)
    requires |results| == |languages|
    requires Summarize(languages, results).Success?
    ensures Distinct(Keys(Summarize(languages, results).value))
    ensures forall k :: k in Keys(Summarize(languages, results).value) <==> k in languages
    decreases |languages|
  {
    if |languages| > 0 {
      var n := |languages| - 1;
      SummarizeStep(languages, results);
      SummarizeKeys(languages[..n], results[..n]);
      var d := Summarize(languages[..n], results[..n]).value;
      var last := languages[n];
      assert Summarize(languages, results).value == Assign(d, last, results[n].value);
      AssignKeys(d, last, results[n].value);
      MembersSnoc(Keys(d), last);
      assert languages == languages[..n] + [last];
      MembersSnoc(languages[..n], last);
    }
  }

  /** An entry before the last that does not recur is not the last entry, and does not recur in the prefix either. */
  lemma LastOccurrenceInPrefix<T>(s: seq<T>, i: nat)
    requires i < |s| - 1 && s[i] !in s[i + 1..]
    ensures s[|s| - 1] != s[i]
    ensures s[..|s| - 1][i] == s[i]
    ensures s[i] !in s[..|s| - 1][i + 1..]
  {
    var n := |s| - 1;
    assert s[i + 1..][n - i - 1] == s[n];
    assert s[..n][i + 1..] == s[i + 1..][..n - i - 1];
  }

  /** In a successful summary each language maps to the statistics of its last occurrence. */
  lemma {:induction false} SummarizeLookup(languages: seq<string>, results: seq<Option<Statistics>>, i: nat)
    requires |results| == |languages|
    requires Summarize(languages, results).Success?
    requires i < |languages| && languages[i] !in languages[i + 1..]
    ensures Lookup(Summarize(languages, results).value, languages[i]) == results[i]
    decreases |languages|
  {
    var n := |languages| - 1;
    var k := languages[i];
    SummarizeStep(languages, results);
    var d := Summarize(languages[..n], results[..n]).value;
    assert Summarize(languages, results).value == Assign(d, languages[n], results[n].value);
    AssignLookup(d, languages[n], results[n].value, k);
    if i < n {
      LastOccurrenceInPrefix(languages, i);
      SummarizeLookup(languages[..n], results[..n], i);
      assert results[..n][i] == results[i];
    }
  }

  /** With distinct language names the summary lists them in input order with their own statistics. */
  lemma {:induction false} SummarizeDistinct(languages: seq<string>, results: seq<Option<Statistics>>)
    requires |results| == |languages|
    requires Distinct(languages)
    requires Summarize(languages, results).Success?
    ensures |Summarize(languages, results).value| == |languages|
    ensures forall i :: 0 <= i < |languages| ==>
      Summarize(languages, results).value[i] == (languages[i], results[i].value)
    decreases |languages|
  {
    if |languages| > 0 {
      var n := |languages| - 1;
      SummarizeStep(languages, results);
      SummarizeDistinct(languages[..n], results[..n]);
      SummarizeKeys(languages[..n], results[..n]);
      var d := Summarize(languages[..n], results[..n]).value;
      assert languages[n] !in languages[..n];
      assert languages[n] !in Keys(d);
      assert Assign(d, languages[n], results[n].value) == d + [(languages[n], results[n].value)] by {
        AssignAppends(d, languages[n], results[n].value);
      }
    }
  }

  /** Language `i` is the first whose pages kept no salary. */
  predicate FirstWithoutSalary(estimate: Estimator, pageSets: seq<seq<Page>>, i: nat) {
    && i < |pageSets|
    && |Kept(estimate, pageSets[i])| == 0
    && forall j :: 0 <= j < i ==> |Kept(estimate, pageSets[j])| > 0
  }

  /** When a language has statistics exactly if it kept a salary, a failure names the first that kept none. */
  lemma SummarizeByKept(languages: seq<string>, results: seq<Option<Statistics>>, estimate: Estimator, pageSets: seq<seq<Page>>)
    requires |results| == |languages| == |pageSets|
    requires forall i :: 0 <= i < |results| ==> (results[i].Some? <==> |Kept(estimate, pageSets[i])| > 0)
    ensures Summarize(languages, results).Success? <==> forall i :: 0 <= i < |pageSets| ==> |Kept(estimate, pageSets[i])| > 0
    ensures Summarize(languages, results).Failure? ==>
      exists i: nat :: FirstWithoutSalary(estimate, pageSets, i)
        && Summarize(languages, results).error == NoProcessedVacancies(languages[i])
  {
    assert forall i: nat :: FirstMissing(results, i) ==> FirstWithoutSalary(estimate, pageSets, i);
  }

  /** `get_avg_salary_sj` over the pages each language's requests return. */
  function SjReport(languages: seq<string>, responses: seq<seq<Page>>): (r: Result<Dict<string, Statistics>, Error>)
    requires |responses| == |languages|
    requires forall i :: 0 <= i < |responses| ==> |responses[i]| == SjPageCount
    ensures r.Success? <==> forall i :: 0 <= i < |responses| ==> |Kept(SjEstimate, responses[i])| > 0
    // a failure names the first language that kept no salary
    ensures r.Failure? ==>
      exists i: nat :: FirstWithoutSalary(SjEstimate, responses, i) && r.error == NoProcessedVacancies(languages[i])
  {
    var results := seq(|languages|, i requires 0 <= i < |languages| => SjLanguageStatistics(responses[i]));
    assert forall i :: 0 <= i < |results| ==> (results[i].Some? <==> |Kept(SjEstimate, responses[i])| > 0);
    SummarizeByKept(languages, results, SjEstimate, responses);
    Summarize(languages, results)
  }

  /** `get_avg_salary_hh` over each language's pages and the vacancy count the server reported. */
  function HhReport(languages: seq<string>, responses: seq<(seq<Page>, nat)>): (r: Result<Dict<string, Statistics>, Error>)
    requires |responses| == |languages|
    requires forall i :: 0 <= i < |responses| ==> |responses[i].0| >= 1
    ensures r.Success? <==> forall i :: 0 <= i < |responses| ==> |Kept(HhEstimate, responses[i].0)| > 0
    // a failure names the first language that kept no salary
    ensures r.Failure? ==>
      exists i: nat :: FirstWithoutSalary(HhEstimate, Keys(responses), i) && r.error == NoProcessedVacancies(languages[i])
  {
    var results := seq(|languages|, i requires 0 <= i < |languages| => HhLanguageStatistics(responses[i].0, responses[i].1));
    var pageSets := Keys(responses);
    assert forall i :: 0 <= i < |results| ==> (results[i].Some? <==> |Kept(HhEstimate, pageSets[i])| > 0);
    SummarizeByKept(languages, results, HhEstimate, pageSets);
    Summarize(languages, results)
  }

  /** A SuperJob report entry for `language` whose statistics come from `pages`. */
  predicate SjEntryFor(entry: (string, Statistics), language: string, pages: seq<Page>) {
    && entry.0 == language
    && entry.1.found == TotalFound(pages)
    && entry.1.processed == |Kept(SjEstimate, pages)|
    && entry.1.processed <= entry.1.found
    && Average(Kept(SjEstimate, pages)) == Some(entry.1.average)
  }

  /**
    For distinct language names a SuperJob report lists every language in
    input order, and each entry's statistics come from that language's pages.
   */
  lemma SjReportStatistics(languages: seq<string>, responses: seq<seq<Page>>)
    requires |responses| == |languages|
    requires forall i :: 0 <= i < |responses| ==> |responses[i]| == SjPageCount
    requires Distinct(languages)
    requires SjReport(languages, responses).Success?
    ensures |SjReport(languages, responses).value| == |languages|
    ensures forall i :: 0 <= i < |languages| ==>
      SjEntryFor(SjReport(languages, responses).value[i], languages[i], responses[i])
  {
    var results := seq(|languages|, i requires 0 <= i < |languages| => SjLanguageStatistics(responses[i]));
    SummarizeDistinct(languages, results);
  }

  /** A HeadHunter report entry for `language` with the server's count and statistics from `pages`. */
  predicate HhEntryFor(entry: (string, Statistics), language: string, pages: seq<Page>, reportedFound: nat) {
    && entry.0 == language
    && entry.1.found == reportedFound
    && entry.1.processed == |Kept(HhEstimate, pages)|
    && Average(Kept(HhEstimate, pages)) == Some(entry.1.average)
  }

  /**
    For distinct language names a HeadHunter report lists every language in
    input order: `found` is the server's figure, and processed and the average
    come from that language's pages.
   */
  lemma HhReportStatistics(languages: seq<string>, responses: seq<(seq<Page>, nat)>)
    requires |responses| == |languages|
    requires forall i :: 0 <= i < |responses| ==> |responses[i].0| >= 1
    requires Distinct(languages)
    requires HhReport(languages, responses).Success?
    ensures |HhReport(languages, responses).value| == |languages|
    ensures forall i :: 0 <= i < |languages| ==>
      HhEntryFor(HhReport(languages, responses).value[i], languages[i], responses[i].0, responses[i].1)
  {
    var results := seq(|languages|, i requires 0 <= i < |languages| => HhLanguageStatistics(responses[i].0, responses[i].1));
    SummarizeDistinct(languages, results);
  }
}
