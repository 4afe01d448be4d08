/**
 * What a run of `getAllCurrencyRates` promises about the dictionary it
 * returns: an entry exactly for each visited pair whose extraction
 * succeeded, no key written twice, no entry for a code paired with itself,
 * at most N·(N−1) entries, and a rejection exactly when some navigation
 * failed, at the first such pair.
 */
module BatchProperties {
  import opened Wrappers
  import opened Currencies
  import opened RateText
  import opened PairUniverse
  import opened Batch

  /** The run completes exactly when none of its navigations fails. */
  lemma {:induction false} RunCompletesIff(cs: seq<string>, fetch: Fetch, ps: seq<Pair>)
    requires InRange(cs, ps)
    ensures Run(cs, fetch, ps).Completed? <==> NoNavigationError(cs, fetch, ps)
    decreases |ps|
  {
    if ps != [] {
      var front := ps[..|ps| - 1];
      RunCompletesIff(cs, fetch, front);
      assert forall k :: 0 <= k < |front| ==> front[k] == ps[k];
    }
  }

  /** A rejected run stopped at the first pair whose navigation failed. */
  lemma {:induction false} RunAbortedAt(cs: seq<string>, fetch: Fetch, ps: seq<Pair>)
    requires InRange(cs, ps)
    requires Run(cs, fetch, ps).Aborted?
    ensures exists k :: (0 <= k < |ps| && NavigationFails(cs, fetch, ps[k])
      && Run(cs, fetch, ps) == Aborted(cs[ps[k].0], cs[ps[k].1])
      && NoNavigationError(cs, fetch, ps[..k]))
    decreases |ps|
  {
    var front, last := ps[..|ps| - 1], ps[|ps| - 1];
    assert InRange(cs, front);
    if Run(cs, fetch, front).Aborted? {
      RunAbortedAt(cs, fetch, front);
      var k :| 0 <= k < |front| && NavigationFails(cs, fetch, front[k])
        && Run(cs, fetch, front) == Aborted(cs[front[k].0], cs[front[k].1])
        && NoNavigationError(cs, fetch, front[..k]);
      assert ps[..k] == front[..k];
      assert ps[k] == front[k];
    } else {
      RunCompletesIff(cs, fetch, front);
      assert ps[..|ps| - 1] == front;
    }
  }

  /** In a run in loop order, every visit earlier than the one that failed navigated. */
  lemma VisitedBeforeAbortNavigated(cs: seq<string>, fetch: Fetch, ps: seq<Pair>, k: nat, q: Pair)
    requires InRange(cs, ps) && StrictlyOrdered(ps)
    requires k < |ps| && NoNavigationError(cs, fetch, ps[..k])
    requires q in ps && LexBefore(q, ps[k])
    ensures !NavigationFails(cs, fetch, q)
  {
    var k' :| 0 <= k' < |ps| && ps[k'] == q;
    assert k' < k;
    assert ps[..k][k'] == q;
  }

  /** Every key of the dictionary was written for some visited pair whose extraction succeeded. */
  lemma {:induction false} RunKeysFromVisits(cs: seq<string>, fetch: Fetch, ps: seq<Pair>, key: string)
    requires InRange(cs, ps)
    requires Run(cs, fetch, ps).Completed? && key in Run(cs, fetch, ps).rates
    ensures exists k :: 0 <= k < |ps| && KeyOf(cs, ps[k]) == key && RateOf(cs, fetch, ps[k]).Some?
    decreases |ps|
  {
    var front, last := ps[..|ps| - 1], ps[|ps| - 1];
    assert InRange(cs, front);
    if key == KeyOf(cs, last) && RateOf(cs, fetch, last).Some? {
      assert ps[|ps| - 1] == last;
    } else {
      RunKeysFromVisits(cs, fetch, front, key);
      var k :| 0 <= k < |front| && KeyOf(cs, front[k]) == key && RateOf(cs, fetch, front[k]).Some?;
      assert ps[k] == front[k];
    }
  }

  /** With codes of one fixed shape and no repeats, different positions give different keys. */
  lemma KeyOfInjective(cs: seq<string>, p: Pair, q: Pair)
    requires AllCodes(cs) && Distinct(cs)
    requires p.0 < |cs| && p.1 < |cs| && q.0 < |cs| && q.1 < |cs|
    requires KeyOf(cs, p) == KeyOf(cs, q)
    ensures p == q
  {
    PairKeyInjective(cs[p.0], cs[p.1], cs[q.0], cs[q.1]);
  }

  /**
   * The dictionary holds the key of a pair exactly when the pair was
   * visited and its extraction succeeded, and then holds that rate.
   */
  lemma {:induction false} RunEntries(cs: seq<string>, fetch: Fetch, ps: seq<Pair>, p: Pair)
    requires AllCodes(cs) && Distinct(cs)
    requires InRange(cs, ps) && p.0 < |cs| && p.1 < |cs|
    requires Run(cs, fetch, ps).Completed?
    ensures KeyOf(cs, p) in Run(cs, fetch, ps).rates <==> p in ps && RateOf(cs, fetch, p).Some?
    ensures KeyOf(cs, p) in Run(cs, fetch, ps).rates ==> Run(cs, fetch, ps).rates[KeyOf(cs, p)] == RateOf(cs, fetch, p).value
    decreases |ps|
  {
    if ps != [] {
      var front, last := ps[..|ps| - 1], ps[|ps| - 1];
      assert InRange(cs, front);
      assert p in ps <==> p in front || p == last by {
        assert ps == front + [last];
      }
      RunEntries(cs, fetch, front, p);
      var m := Run(cs, fetch, front).rates;
      assert Run(cs, fetch, ps) == Step(cs, fetch, Completed(m), last);
      if last != p && KeyOf(cs, last) == KeyOf(cs, p) {
        KeyOfInjective(cs, last, p);
      }
      if RateOf(cs, fetch, last).Some? {
        assert Run(cs, fetch, ps).rates == m[KeyOf(cs, last) := RateOf(cs, fetch, last).value];
      } else {
        assert Run(cs, fetch, ps).rates == m;
      }
    }
  }

  /** Each visit adds at most one entry. */
  lemma {:induction false} RunSizeBound(cs: seq<string>, fetch: Fetch, ps: seq<Pair>)
    requires InRange(cs, ps)
    requires Run(cs, fetch, ps).Completed?
    ensures |Run(cs, fetch, ps).rates| <= |ps|
    decreases |ps|
  {
    if ps != [] {
      var front := ps[..|ps| - 1];
      assert InRange(cs, front);
      RunSizeBound(cs, fetch, front);
    }
  }

  /** When every visit of distinct pairs yields a rate, the dictionary has one entry per visit. */
  lemma {:induction false} RunSizeExact(cs: seq<string>, fetch: Fetch, ps: seq<Pair>)
    requires AllCodes(cs) && Distinct(cs)
    requires InRange(cs, ps) && NoDuplicates(ps)
    requires forall k :: 0 <= k < |ps| ==> RateOf(cs, fetch, ps[k]).Some?
    ensures Run(cs, fetch, ps).Completed?
    ensures |Run(cs, fetch, ps).rates| == |ps|
    decreases |ps|
  {
    if ps != [] {
      var front, last := ps[..|ps| - 1], ps[|ps| - 1];
      assert InRange(cs, front);
      assert forall k :: 0 <= k < |front| ==> front[k] == ps[k];
      RunSizeExact(cs, fetch, front);
      assert last !in front;
      RunEntries(cs, fetch, front, last);
      var m := Run(cs, fetch, front).rates;
      assert RateOf(cs, fetch, last).Some?;
      assert Run(cs, fetch, ps).rates == m[KeyOf(cs, last) := RateOf(cs, fetch, last).value];
    }
  }

  /**
   * No key is ever overwritten: the dictionary after a prefix of the visits
   * is contained, with the same values, in the dictionary after all of them.
   */
  lemma RatesNeverOverwritten(cs: seq<string>, fetch: Fetch, ps: seq<Pair>, qs: seq<Pair>)
    requires AllCodes(cs) && Distinct(cs)
    requires InRange(cs, qs) && ps <= qs
    requires Run(cs, fetch, qs).Completed?
    ensures InRange(cs, ps) && Run(cs, fetch, ps).Completed?
    ensures forall key :: key in Run(cs, fetch, ps).rates ==>
      key in Run(cs, fetch, qs).rates && Run(cs, fetch, qs).rates[key] == Run(cs, fetch, ps).rates[key]
  {
    assert InRange(cs, ps) by {
      assert forall k :: 0 <= k < |ps| ==> ps[k] == qs[k];
    }
    if Run(cs, fetch, ps).Aborted? {
      RunStaysAborted(cs, fetch, ps, qs);
    }
    forall key | key in Run(cs, fetch, ps).rates
      ensures key in Run(cs, fetch, qs).rates && Run(cs, fetch, qs).rates[key] == Run(cs, fetch, ps).rates[key]
    {
      RunKeysFromVisits(cs, fetch, ps, key);
      var k :| 0 <= k < |ps| && KeyOf(cs, ps[k]) == key && RateOf(cs, fetch, ps[k]).Some?;
      var p := ps[k];
      assert p in ps && p == qs[k];
      RunEntries(cs, fetch, ps, p);
      RunEntries(cs, fetch, qs, p);
    }
  }

  // The whole run over a list `cs` of distinct codes, stated on codes.

  /**
   * A completed run has an entry `"A / B"` exactly when A and B are
   * different codes of the list and the rate for A to B was extracted, and
   * the entry is that rate.
   */
  lemma ListEntries(cs: seq<string>, fetch: Fetch, a: string, b: string)
    requires AllCodes(cs) && Distinct(cs)
    requires a in cs && b in cs
    requires Run(cs, fetch, VisitOrder(cs)).Completed?
    ensures PairKey(a, b) in Run(cs, fetch, VisitOrder(cs)).rates <==> a != b && RateFor(fetch, a, b).Some?
    ensures PairKey(a, b) in Run(cs, fetch, VisitOrder(cs)).rates ==>
      Run(cs, fetch, VisitOrder(cs)).rates[PairKey(a, b)] == RateFor(fetch, a, b).value
  {
    var ia :| 0 <= ia < |cs| && cs[ia] == a;
    var ib :| 0 <= ib < |cs| && cs[ib] == b;
    VisitOrderMembers(cs, ia, ib);
    RunEntries(cs, fetch, VisitOrder(cs), (ia, ib));
  }

  /**
   * Every key of a completed run reads back as `"<BASE> / <QUOTE>"` for two
   * different codes of the list, and its value is that pair's extracted rate.
   */
  lemma ListKeysWellFormed(cs: seq<string>, fetch: Fetch, key: string)
    requires AllCodes(cs) && Distinct(cs)
    requires Run(cs, fetch, VisitOrder(cs)).Completed? && key in Run(cs, fetch, VisitOrder(cs)).rates
    ensures SplitKey(key).Some?
    ensures var (a, b) := SplitKey(key).value;
      a in cs && b in cs && a != b && PairKey(a, b) == key
      && RateFor(fetch, a, b) == Some(Run(cs, fetch, VisitOrder(cs)).rates[key])
  {
    var ps := VisitOrder(cs);
    RunKeysFromVisits(cs, fetch, ps, key);
    var k :| 0 <= k < |ps| && KeyOf(cs, ps[k]) == key && RateOf(cs, fetch, ps[k]).Some?;
    var a, b := cs[ps[k].0], cs[ps[k].1];
    assert a in cs && b in cs && a != b;
    SplitPairKey(a, b);
    assert SplitKey(key) == Some((a, b));
    RunEntries(cs, fetch, ps, ps[k]);
  }

  /** No key pairs a string with itself, whatever the string. */
  lemma ListHasNoSelfKey(cs: seq<string>, fetch: Fetch, x: string)
    requires AllCodes(cs) && Distinct(cs)
    requires Run(cs, fetch, VisitOrder(cs)).Completed?
    ensures PairKey(x, x) !in Run(cs, fetch, VisitOrder(cs)).rates
  {
    if PairKey(x, x) in Run(cs, fetch, VisitOrder(cs)).rates {
      ListKeysWellFormed(cs, fetch, PairKey(x, x));
    }
  }

  /** At most N·(N−1) entries. */
  lemma ListSizeBound(cs: seq<string>, fetch: Fetch)
    requires Distinct(cs)
    requires Run(cs, fetch, VisitOrder(cs)).Completed?
    ensures |Run(cs, fetch, VisitOrder(cs)).rates| <= |cs| * (|cs| - 1)
  {
    VisitOrderLength(cs);
    RunSizeBound(cs, fetch, VisitOrder(cs));
  }

  /** When a rate is extracted for every pair of different codes, the run completes with N·(N−1) entries. */
  lemma ListSizeExact(cs: seq<string>, fetch: Fetch)
    requires AllCodes(cs) && Distinct(cs)
    requires forall a, b :: a in cs && b in cs && a != b ==> RateFor(fetch, a, b).Some?
    ensures Run(cs, fetch, VisitOrder(cs)).Completed?
    ensures |Run(cs, fetch, VisitOrder(cs)).rates| == |cs| * (|cs| - 1)
  {
    var ps := VisitOrder(cs);
    VisitOrderLength(cs);
    VisitOrderOrdered(cs);
    forall k | 0 <= k < |ps|
      ensures RateOf(cs, fetch, ps[k]).Some?
    {
      assert cs[ps[k].0] in cs && cs[ps[k].1] in cs;
    }
    RunSizeExact(cs, fetch, ps);
  }

  /** The run completes exactly when the navigation succeeds for every pair of different codes. */
  lemma ListCompletesIff(cs: seq<string>, fetch: Fetch)
    ensures Run(cs, fetch, VisitOrder(cs)).Completed? <==>
      forall a, b :: a in cs && b in cs && a != b ==> !fetch(a, b).NavigationFailed?
  {
    var ps := VisitOrder(cs);
    RunCompletesIff(cs, fetch, ps);
    if NoNavigationError(cs, fetch, ps) {
      forall a, b | a in cs && b in cs && a != b
        ensures !fetch(a, b).NavigationFailed?
      {
        var ia :| 0 <= ia < |cs| && cs[ia] == a;
        var ib :| 0 <= ib < |cs| && cs[ib] == b;
        VisitOrderMembers(cs, ia, ib);
        var k :| 0 <= k < |ps| && ps[k] == (ia, ib);
        assert !NavigationFails(cs, fetch, ps[k]);
      }
    } else {
      var k :| 0 <= k < |ps| && NavigationFails(cs, fetch, ps[k]);
      assert cs[ps[k].0] in cs && cs[ps[k].1] in cs;
    }
  }

  /**
   * A rejected run names the positions of two different codes whose
   * navigation failed, and every pair of different codes the loops reach
   * before it navigated.
   */
  lemma ListAbortedAt(cs: seq<string>, fetch: Fetch)
    requires Run(cs, fetch, VisitOrder(cs)).Aborted?
    ensures exists p: Pair :: (p.0 < |cs| && p.1 < |cs| && cs[p.0] != cs[p.1]
      && NavigationFails(cs, fetch, p)
      && Run(cs, fetch, VisitOrder(cs)) == Aborted(cs[p.0], cs[p.1])
      && forall q: Pair :: (q.0 < |cs| && q.1 < |cs| && cs[q.0] != cs[q.1] && LexBefore(q, p)
        ==> !NavigationFails(cs, fetch, q)))
  {
    var ps := VisitOrder(cs);
    RunAbortedAt(cs, fetch, ps);
    var k :| 0 <= k < |ps| && NavigationFails(cs, fetch, ps[k])
      && Run(cs, fetch, ps) == Aborted(cs[ps[k].0], cs[ps[k].1])
      && NoNavigationError(cs, fetch, ps[..k]);
    VisitOrderOrdered(cs);
    forall q: Pair | q.0 < |cs| && q.1 < |cs| && cs[q.0] != cs[q.1] && LexBefore(q, ps[k])
      ensures !NavigationFails(cs, fetch, q)
    {
      VisitOrderMembers(cs, q.0, q.1);
      VisitedBeforeAbortNavigated(cs, fetch, ps, k, q);
    }
    assert ps[k].0 < |cs| && ps[k].1 < |cs| && cs[ps[k].0] != cs[ps[k].1];
  }

  // The same with the fetch of the browser `goto`.

  /** With a fetch whose every extracted rate reads as a number, every value of a completed run does. */
  lemma ListValuesAreRates(cs: seq<string>, fetch: Fetch, key: string)
    requires AllCodes(cs) && Distinct(cs) && ExtractsRates(fetch)
    requires Run(cs, fetch, VisitOrder(cs)).Completed? && key in Run(cs, fetch, VisitOrder(cs)).rates
    ensures var v := Run(cs, fetch, VisitOrder(cs)).rates[key];
      |v| > 0 && ParsesAsNumber(v) && DigitsAndDots(v) && ',' !in v
  {
    ListKeysWellFormed(cs, fetch, key);
  }

  /** With a fetch that extracts only comma-free digits and dots, every value of a completed run is such a text. */
  lemma ListValuesAreRateTexts(cs: seq<string>, fetch: Fetch, key: string)
    requires AllCodes(cs) && Distinct(cs) && ExtractsRateTexts(fetch)
    requires Run(cs, fetch, VisitOrder(cs)).Completed? && key in Run(cs, fetch, VisitOrder(cs)).rates
    ensures var v := Run(cs, fetch, VisitOrder(cs)).rates[key];
      DigitsAndDots(v) && ',' !in v
  {
    ListKeysWellFormed(cs, fetch, key);
  }

  /** With the browser's fetch, the run completes exactly when every navigation of different codes succeeds. */
  lemma PageCompletesIff(cs: seq<string>, goto: Navigator)
    ensures Run(cs, PageFetch(goto), VisitOrder(cs)).Completed? <==>
      forall a, b :: a in cs && b in cs && a != b ==> !goto(a, b).NavigationError?
  {
    ListCompletesIff(cs, PageFetch(goto));
    assert forall a, b :: PageFetch(goto)(a, b).NavigationFailed? == goto(a, b).NavigationError?;
  }

  /**
   * With the browser's fetch, a rejected run names the positions of two
   * different codes whose navigation failed, and every earlier pair of
   * different codes navigated.
   */
  lemma PageAbortedAt(cs: seq<string>, goto: Navigator)
    requires Run(cs, PageFetch(goto), VisitOrder(cs)).Aborted?
    ensures exists p: Pair :: (p.0 < |cs| && p.1 < |cs| && cs[p.0] != cs[p.1]
      && goto(cs[p.0], cs[p.1]).NavigationError?
      && Run(cs, PageFetch(goto), VisitOrder(cs)) == Aborted(cs[p.0], cs[p.1])
      && forall q: Pair :: (q.0 < |cs| && q.1 < |cs| && cs[q.0] != cs[q.1] && LexBefore(q, p)
        ==> !goto(cs[q.0], cs[q.1]).NavigationError?))
  {
    ListAbortedAt(cs, PageFetch(goto));
    assert forall a, b :: PageFetch(goto)(a, b).NavigationFailed? == goto(a, b).NavigationError?;
  }

  // The run over `COMMON_CURRENCIES` itself.

  /** `"A / B"` is present exactly when A and B are different common codes with an extracted rate, and holds that rate. */
  lemma BatchEntries(goto: Navigator, a: string, b: string)
    requires a in CommonCurrencies && b in CommonCurrencies
    requires BatchRun(goto).Completed?
    ensures PairKey(a, b) in BatchRun(goto).rates <==> a != b && RateFor(PageFetch(goto), a, b).Some?
    ensures PairKey(a, b) in BatchRun(goto).rates ==> BatchRun(goto).rates[PairKey(a, b)] == RateFor(PageFetch(goto), a, b).value
  {
    CommonCurrenciesWellFormed();
    ListEntries(CommonCurrencies, PageFetch(goto), a, b);
  }

  /** Every key is `"<BASE> / <QUOTE>"` for two different common codes, holding their rate. */
  lemma BatchKeysWellFormed(goto: Navigator, key: string)
    requires BatchRun(goto).Completed? && key in BatchRun(goto).rates
    ensures SplitKey(key).Some?
    ensures var (a, b) := SplitKey(key).value;
      a in CommonCurrencies && b in CommonCurrencies && a != b && PairKey(a, b) == key
      && RateFor(PageFetch(goto), a, b) == Some(BatchRun(goto).rates[key])
  {
    CommonCurrenciesWellFormed();
    ListKeysWellFormed(CommonCurrencies, PageFetch(goto), key);
  }

  /** No key `"X / X"`, for any string X. */
  lemma BatchHasNoSelfKey(goto: Navigator, x: string)
    requires BatchRun(goto).Completed?
    ensures PairKey(x, x) !in BatchRun(goto).rates
  {
    CommonCurrenciesWellFormed();
    ListHasNoSelfKey(CommonCurrencies, PageFetch(goto), x);
  }

  /** Every value is the comma-free digits and dots handed to `parseFloat` (which may read it as NaN). */
  lemma BatchValuesAreRates(goto: Navigator, key: string)
    requires BatchRun(goto).Completed? && key in BatchRun(goto).rates
    ensures var v := BatchRun(goto).rates[key];
      DigitsAndDots(v) && ',' !in v
  {
    CommonCurrenciesWellFormed();
    PageFetchExtractsRates(goto);
    ListValuesAreRateTexts(CommonCurrencies, PageFetch(goto), key);
  }

  /** With the corrected extraction no value is NaN: each is non-empty and reads as a number. */
  lemma CorrectedBatchValuesAreRates(goto: Navigator, key: string)
    requires CorrectedBatchRun(goto).Completed? && key in CorrectedBatchRun(goto).rates
    ensures var v := CorrectedBatchRun(goto).rates[key];
      |v| > 0 && ParsesAsNumber(v) && DigitsAndDots(v) && ',' !in v
  {
    CommonCurrenciesWellFormed();
    CorrectedPageFetchExtractsRates(goto);
    ListValuesAreRates(CommonCurrencies, CorrectedPageFetch(goto), key);
  }

  /**
   * As written, a pair whose page still shows the loading placeholder is
   * stored with the text "...", which `parseFloat` reads as NaN.
   */
  lemma PlaceholderStoredAsWritten(goto: Navigator)
    requires forall a, b :: !goto(a, b).NavigationError?
    requires goto("USD", "EUR") == Loaded(Some(PlaceholderPage))
    ensures BatchRun(goto).Completed? && PairKey("USD", "EUR") in BatchRun(goto).rates
    ensures BatchRun(goto).rates[PairKey("USD", "EUR")] == "..." && !ParsesAsNumber("...")
  {
    CommonCurrenciesWellFormed();
    assert "USD" == CommonCurrencies[0] && "EUR" == CommonCurrencies[1];
    PlaceholderGivesNaNText();
    assert RateFor(PageFetch(goto), "USD", "EUR") == Some("...");
    PageCompletesIff(CommonCurrencies, goto);
    ListEntries(CommonCurrencies, PageFetch(goto), "USD", "EUR");
  }

  /** With the corrected extraction the same pair has no entry. */
  lemma PlaceholderDroppedWhenCorrected(goto: Navigator)
    requires forall a, b :: !goto(a, b).NavigationError?
    requires goto("USD", "EUR") == Loaded(Some(PlaceholderPage))
    ensures CorrectedBatchRun(goto).Completed? && PairKey("USD", "EUR") !in CorrectedBatchRun(goto).rates
  {
    CommonCurrenciesWellFormed();
    assert "USD" == CommonCurrencies[0] && "EUR" == CommonCurrencies[1];
    PlaceholderGivesNaNText();
    assert RateFor(CorrectedPageFetch(goto), "USD", "EUR") == None;
    ListCompletesIff(CommonCurrencies, CorrectedPageFetch(goto));
    ListEntries(CommonCurrencies, CorrectedPageFetch(goto), "USD", "EUR");
  }

  /** At most 40·39 = 1560 entries. */
  lemma BatchSizeBound(goto: Navigator)
    requires BatchRun(goto).Completed?
    ensures |BatchRun(goto).rates| <= 1560
  {
    CommonCurrenciesWellFormed();
    ListSizeBound(CommonCurrencies, PageFetch(goto));
  }

  /** When a rate is extracted for every pair of different common codes, the run completes with all 1560 entries. */
  lemma BatchSizeExact(goto: Navigator)
    requires forall a, b :: a in CommonCurrencies && b in CommonCurrencies && a != b ==> RateFor(PageFetch(goto), a, b).Some?
    ensures BatchRun(goto).Completed?
    ensures |BatchRun(goto).rates| == 1560
  {
    CommonCurrenciesWellFormed();
    ListSizeExact(CommonCurrencies, PageFetch(goto));
  }

  /** The run completes exactly when navigation succeeds for every pair of different common codes. */
  lemma BatchCompletesIff(goto: Navigator)
    ensures BatchRun(goto).Completed? <==>
      forall a, b :: a in CommonCurrencies && b in CommonCurrencies && a != b ==> !goto(a, b).NavigationError?
  {
    PageCompletesIff(CommonCurrencies, goto);
  }

  /**
   * A rejected run stops at a pair of positions of different common codes
   * whose navigation failed, and every pair the loops reach before it
   * navigated.
   */
  lemma BatchAbortedAt(goto: Navigator)
    requires BatchRun(goto).Aborted?
    ensures exists p: Pair :: (p.0 < |CommonCurrencies| && p.1 < |CommonCurrencies| && CommonCurrencies[p.0] != CommonCurrencies[p.1]
      && goto(CommonCurrencies[p.0], CommonCurrencies[p.1]).NavigationError?
      && BatchRun(goto) == Aborted(CommonCurrencies[p.0], CommonCurrencies[p.1])
      && forall q: Pair :: (q.0 < |CommonCurrencies| && q.1 < |CommonCurrencies| && CommonCurrencies[q.0] != CommonCurrencies[q.1] && LexBefore(q, p)
        ==> !goto(CommonCurrencies[q.0], CommonCurrencies[q.1]).NavigationError?))
  {
    PageAbortedAt(CommonCurrencies, goto);
  }
}
