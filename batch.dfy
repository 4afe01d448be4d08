/**
 * `getAllCurrencyRates` (src/index.ts:48-84): one browser page, the nested
 * loops over `COMMON_CURRENCIES`, one navigation and one extraction per pair
 * of different codes, and the `rates` dictionary filled in place; at the end
 * the dictionary is written to `currency-rates.json` and returned.
 *
 * The browser is a navigator function from (base, quote) to what loading
 * that pair's converter page gave. The loops see it through a fetch: the
 * navigation followed by `extractRateFromPage`, as lines 61-66 do for each
 * pair. `page.goto` is not inside the try of `extractRateFromPage`, so a
 * navigation error leaves both loops at once: the browser is closed, no file
 * is written and the call rejects.
 *
 * `PageFetch`, `BatchRun` and `GetAllCurrencyRates` use the extraction as
 * written, so a group `parseFloat` reads as NaN is stored. `CorrectedPageFetch`
 * and `CorrectedBatchRun` use the corrected extraction instead.
 */
module Batch {
  import opened Wrappers
  import opened Currencies
  import opened RateText
  import opened PairUniverse

  /** What `page.goto` followed by reading the result element gave for one pair. */
  datatype PageLoad =
    | NavigationError                   // `page.goto` threw
    | Loaded(content: Option<string>)   // the element's text, `None` if waiting or reading failed

  type Navigator = (string, string) -> PageLoad

  /** What navigating to a pair's page and extracting from it gave. */
  datatype Fetched =
    | NavigationFailed
    | Extracted(rate: Option<string>)

  type Fetch = (string, string) -> Fetched

  /** Lines 61-66 for one pair: navigate, and when the page loaded, extract its rate. */
  function PageFetch(goto: Navigator): Fetch {
    (base: string, quote: string) =>
      match goto(base, quote)
      case NavigationError => NavigationFailed
      case Loaded(content) => Extracted(ExtractRateFromPage(content))
  }

  /** Lines 61-66 with the corrected extraction. */
  function CorrectedPageFetch(goto: Navigator): Fetch {
    (base: string, quote: string) =>
      match goto(base, quote)
      case NavigationError => NavigationFailed
      case Loaded(content) => Extracted(CorrectedExtractRate(content))
  }

  /** Every rate the fetch extracts is digits and dots, with no comma. */
  ghost predicate ExtractsRateTexts(fetch: Fetch) {
    forall a, b :: RateFor(fetch, a, b).Some? ==>
      var v := RateFor(fetch, a, b).value;
      DigitsAndDots(v) && ',' !in v
  }

  /** Every rate the fetch extracts is non-empty digits and dots, with no comma, and reads as a number. */
  ghost predicate ExtractsRates(fetch: Fetch) {
    forall a, b :: RateFor(fetch, a, b).Some? ==>
      var v := RateFor(fetch, a, b).value;
      |v| > 0 && ParsesAsNumber(v) && DigitsAndDots(v) && ',' !in v
  }

  /** The browser's fetch, as written, extracts comma-free digits and dots (possibly NaN to `parseFloat`). */
  lemma PageFetchExtractsRates(goto: Navigator)
    ensures ExtractsRateTexts(PageFetch(goto))
  {
    forall a, b | RateFor(PageFetch(goto), a, b).Some?
      ensures var v := RateFor(PageFetch(goto), a, b).value;
        DigitsAndDots(v) && ',' !in v
    {
      var content := goto(a, b).content;
      assert RateFor(PageFetch(goto), a, b) == ExtractRateFromPage(content);
    }
  }

  /** The corrected fetch extracts only texts that read as numbers. */
  lemma CorrectedPageFetchExtractsRates(goto: Navigator)
    ensures ExtractsRates(CorrectedPageFetch(goto))
  {
    forall a, b | RateFor(CorrectedPageFetch(goto), a, b).Some?
      ensures var v := RateFor(CorrectedPageFetch(goto), a, b).value;
        |v| > 0 && ParsesAsNumber(v) && DigitsAndDots(v) && ',' !in v
    {
      var content := goto(a, b).content;
      assert RateFor(CorrectedPageFetch(goto), a, b) == CorrectedExtractRate(content);
    }
  }

  /**
   * The two fetches navigate alike, and the corrected one keeps exactly the
   * rates of the one as written that read as numbers.
   */
  lemma CorrectedPageFetchAgrees(goto: Navigator, a: string, b: string)
    ensures CorrectedPageFetch(goto)(a, b).NavigationFailed? == PageFetch(goto)(a, b).NavigationFailed?
    ensures RateFor(CorrectedPageFetch(goto), a, b)
      == if RateFor(PageFetch(goto), a, b).Some? && ParsesAsNumber(RateFor(PageFetch(goto), a, b).value)
         then RateFor(PageFetch(goto), a, b) else None
  {
    if goto(a, b).Loaded? {
      var content := goto(a, b).content;
      assert RateFor(PageFetch(goto), a, b) == ExtractRateFromPage(content);
      assert RateFor(CorrectedPageFetch(goto), a, b) == CorrectedExtractRate(content);
    }
  }

  /** How a whole run ends: the filled dictionary, or rejected at the pair whose navigation failed. */
  datatype BatchOutcome =
    | Completed(rates: map<string, string>)
    | Aborted(base: string, quote: string)

  function KeyOf(cs: seq<string>, p: Pair): string
    requires p.0 < |cs| && p.1 < |cs|
  {
    PairKey(cs[p.0], cs[p.1])
  }

  /** The rate text fetched for a pair, when its page loaded and held one. */
  function RateFor(fetch: Fetch, base: string, quote: string): Option<string> {
    match fetch(base, quote)
    case NavigationFailed => None
    case Extracted(rate) => rate
  }

  function RateOf(cs: seq<string>, fetch: Fetch, p: Pair): Option<string>
    requires p.0 < |cs| && p.1 < |cs|
  {
    RateFor(fetch, cs[p.0], cs[p.1])
  }

  function NavigationFails(cs: seq<string>, fetch: Fetch, p: Pair): bool
    requires p.0 < |cs| && p.1 < |cs|
  {
    fetch(cs[p.0], cs[p.1]).NavigationFailed?
  }

  predicate NoNavigationError(cs: seq<string>, fetch: Fetch, ps: seq<Pair>)
    requires InRange(cs, ps)
  {
    forall k :: 0 <= k < |ps| ==> !NavigationFails(cs, fetch, ps[k])
  }

  /** One iteration of the inner loop body for a pair of different codes. */
  function Step(cs: seq<string>, fetch: Fetch, acc: BatchOutcome, p: Pair): BatchOutcome
    requires p.0 < |cs| && p.1 < |cs|
  {
    match acc
    case Aborted(_, _) => acc
    case Completed(m) =>
      if NavigationFails(cs, fetch, p) then Aborted(cs[p.0], cs[p.1])
      else match RateOf(cs, fetch, p)
        case None => acc
        case Some(r) => Completed(m[KeyOf(cs, p) := r])
  }

  /**
   * The outcome of performing the visits `ps` in order, starting from an
   * empty dictionary. A position outside the list is passed over; the loops
   * never make such a visit (`VisitOrder` is `InRange`), so this only makes
   * `Run` total.
   */
  function Run(cs: seq<string>, fetch: Fetch, ps: seq<Pair>): BatchOutcome
    decreases |ps|
  {
    if ps == [] then Completed(map[])
    else
      var p := ps[|ps| - 1];
      var acc := Run(cs, fetch, ps[..|ps| - 1]);
      if p.0 < |cs| && p.1 < |cs| then Step(cs, fetch, acc, p) else acc
  }

  /** The outcome of a whole run over `COMMON_CURRENCIES` with the browser `goto`. */
  function BatchRun(goto: Navigator): BatchOutcome {
    Run(CommonCurrencies, PageFetch(goto), VisitOrder(CommonCurrencies))
  }

  /** The same run with the corrected extraction. */
  function CorrectedBatchRun(goto: Navigator): BatchOutcome {
    Run(CommonCurrencies, CorrectedPageFetch(goto), VisitOrder(CommonCurrencies))
  }

  /**
   * `getAllCurrencyRates`: the outcome is that of the whole run, and the
   * dictionary written to the output file is the one returned (nothing is
   * written when the run rejects).
   */
  method GetAllCurrencyRates(goto: Navigator) returns (outcome: BatchOutcome, written: Option<map<string, string>>)
    ensures outcome == BatchRun(goto)
    ensures written == if outcome.Completed? then Some(outcome.rates) else None
  {
    outcome := VisitAll(CommonCurrencies, PageFetch(goto));
    written := if outcome.Completed? then Some(outcome.rates) else None;
  }

  /** The two nested loops of `getAllCurrencyRates` over the code list `cs`. */
  method VisitAll(cs: seq<string>, fetch: Fetch) returns (outcome: BatchOutcome)
    ensures outcome == Run(cs, fetch, VisitOrder(cs))
  {
    var rates: map<string, string> := map[];
    var i := 0;
    assert RowsPrefix(cs, 0) == [];
    while i < |cs|
      invariant 0 <= i <= |cs|
      invariant Run(cs, fetch, RowsPrefix(cs, i)) == Completed(rates)
    {
      var row := VisitRow(cs, fetch, i, rates);
      if row.Aborted? {
        RowsPrefixGrows(cs, i + 1, |cs|);
        RunStaysAborted(cs, fetch, RowsPrefix(cs, i + 1), VisitOrder(cs));
        return row;
      }
      rates := row.rates;
      i := i + 1;
    }
    return Completed(rates);
  }

  /** One pass of the inner loop, for the base at position `i`. */
  method VisitRow(cs: seq<string>, fetch: Fetch, i: nat, start: map<string, string>) returns (outcome: BatchOutcome)
    requires i < |cs|
    requires Run(cs, fetch, RowsPrefix(cs, i)) == Completed(start)
    ensures outcome == Run(cs, fetch, RowsPrefix(cs, i + 1))
  {
    var rates := start;
    var j := 0;
    VisitedBeforeRow(cs, i);
    while j < |cs|
      invariant 0 <= j <= |cs|
      invariant Run(cs, fetch, VisitedBefore(cs, i, j)) == Completed(rates)
    {
      InnerStep(cs, fetch, i, j, rates);
      var base, quote := cs[i], cs[j];
      if base != quote {
        var key := PairKey(base, quote);
        var fetched := fetch(base, quote);
        if fetched.NavigationFailed? {
          RowEndsAborted(cs, fetch, i, j + 1);
          return Aborted(base, quote);
        }
        if fetched.rate.Some? {
          rates := rates[key := fetched.rate.value];
        }
      }
      j := j + 1;
    }
    assert j == |cs|;
    OuterStep(cs, fetch, i, rates);
    return Completed(rates);
  }

  /** A navigation error part-way through a row decides the outcome of the whole row. */
  lemma RowEndsAborted(cs: seq<string>, fetch: Fetch, i: nat, j: nat)
    requires i < |cs| && j <= |cs|
    requires Run(cs, fetch, VisitedBefore(cs, i, j)).Aborted?
    ensures Run(cs, fetch, RowsPrefix(cs, i + 1)) == Run(cs, fetch, VisitedBefore(cs, i, j))
  {
    RowPrefixGrows(cs, i, j, |cs|);
    VisitedBeforeRow(cs, i);
    RunStaysAborted(cs, fetch, VisitedBefore(cs, i, j), VisitedBefore(cs, i, |cs|));
  }

  /** A finished inner loop completes a row of the outer loop. */
  lemma OuterStep(cs: seq<string>, fetch: Fetch, i: nat, rates: map<string, string>)
    requires i < |cs|
    requires Run(cs, fetch, VisitedBefore(cs, i, |cs|)) == Completed(rates)
    ensures Run(cs, fetch, RowsPrefix(cs, i + 1)) == Completed(rates)
  {
    VisitedBeforeRow(cs, i);
  }

  /** What one iteration of the inner loop does to the outcome so far. */
  lemma InnerStep(cs: seq<string>, fetch: Fetch, i: nat, j: nat, rates: map<string, string>)
    requires i < |cs| && j < |cs|
    requires Run(cs, fetch, VisitedBefore(cs, i, j)) == Completed(rates)
    ensures Run(cs, fetch, VisitedBefore(cs, i, j + 1))
      == if cs[i] == cs[j] then Completed(rates) else Step(cs, fetch, Completed(rates), (i, j))
  {
    VisitedBeforeStep(cs, i, j);
    if cs[i] != cs[j] {
      RunAppend(cs, fetch, VisitedBefore(cs, i, j), (i, j));
    } else {
      assert VisitedBefore(cs, i, j + 1) == VisitedBefore(cs, i, j);
    }
  }

  /** Performing one more visit is one more step. */
  lemma RunAppend(cs: seq<string>, fetch: Fetch, ps: seq<Pair>, p: Pair)
    requires p.0 < |cs| && p.1 < |cs|
    ensures Run(cs, fetch, ps + [p]) == Step(cs, fetch, Run(cs, fetch, ps), p)
  {
    assert (ps + [p])[..|ps|] == ps;
  }

  /** Once a navigation has failed, later visits change nothing. */
  lemma {:induction false} RunStaysAborted(cs: seq<string>, fetch: Fetch, ps: seq<Pair>, qs: seq<Pair>)
    requires ps <= qs
    requires Run(cs, fetch, ps).Aborted?
    ensures Run(cs, fetch, qs) == Run(cs, fetch, ps)
    decreases |qs|
  {
    if |qs| > |ps| {
      assert ps <= qs[..|qs| - 1];
      RunStaysAborted(cs, fetch, ps, qs[..|qs| - 1]);
    } else {
      assert ps == qs;
    }
  }
}
