/**
 * The parsing step of `extractRateFromPage` (src/index.ts:11-27): the text of
 * the conversion-result element is matched against the regular expression
 * /1.+?=\s*([\d,.]+)/, the captured group loses its commas, and what is left
 * is handed to `parseFloat`. The page wait and the DOM read are an input
 * `Option<string>` (`None` when waiting or reading failed); `parseFloat` is
 * not modelled, only the condition under which it yields a number.
 *
 * The regular expression is modelled with JavaScript's backtracking
 * semantics: the leftmost start position wins; from that start the lazy
 * `.+?` takes the fewest characters for which the rest matches; `\s*` and
 * the group are greedy.
 */
module RateText {
  import opened Wrappers

  /** The characters `.` does not match without the `s` flag. */
  predicate IsLineTerminator(c: char) {
    c == '\n' || c == '\r' || c == '\U{2028}' || c == '\U{2029}'
  }

  /** The class `\s`: ECMAScript white space and line terminators. */
  predicate IsWhitespace(c: char) {
    || c == '\t' || c == '\n' || c == '\U{000B}' || c == '\U{000C}' || c == '\r' || c == ' '
    || c == '\U{00A0}' || c == '\U{1680}' || ('\U{2000}' <= c <= '\U{200A}')
    || c == '\U{2028}' || c == '\U{2029}' || c == '\U{202F}' || c == '\U{205F}'
    || c == '\U{3000}' || c == '\U{FEFF}'
  }

  /** The class `\d` (ASCII digits only, as without the `u` flag). */
  predicate IsDigit(c: char) {
    '0' <= c <= '9'
  }

  /** The class `[\d,.]`. */
  predicate IsRateChar(c: char) {
    IsDigit(c) || c == ',' || c == '.'
  }

  /**
   * One way the expression can match: `1` at `i`, `.+?` over `s[i+1..eq]`,
   * `=` at `eq`, `\s*` over `s[eq+1..g0]`, the group over `s[g0..g1]`.
   */
  ghost predicate RegexMatch(s: string, i: int, eq: int, g0: int, g1: int) {
    && 0 <= i && i + 2 <= eq && eq < g0 < g1 <= |s|
    && s[i] == '1'
    && (forall k :: i < k < eq ==> !IsLineTerminator(s[k]))
    && s[eq] == '='
    && (forall k :: eq < k < g0 ==> IsWhitespace(s[k]))
    && (forall k :: g0 <= k < g1 ==> IsRateChar(s[k]))
  }

  /** The match the expression reports: where it starts, where its `=` is, and the group. */
  datatype Match = Match(start: nat, eq: nat, groupStart: nat, groupEnd: nat)

  /** Whether match `m` is preferred by the regex engine over the match at `(i, eq, g0, g1)`. */
  ghost predicate Preferred(m: Match, i: int, eq: int, g0: int, g1: int) {
    || m.start < i
    || (m.start == i && m.eq < eq)
    || (m.start == i && m.eq == eq && m.groupStart == g0 && g1 <= m.groupEnd)
  }

  /** The end of the greedy `\s*` that starts at `k`. */
  function SpacesEnd(s: string, k: nat): (e: nat)
    requires k <= |s|
    ensures k <= e <= |s|
    decreases |s| - k
  {
    if k < |s| && IsWhitespace(s[k]) then SpacesEnd(s, k + 1) else k
  }

  /** `\s*` from `k` covers only white space and stops before the first other character. */
  lemma {:induction false} SpacesEndSpans(s: string, k: nat)
    requires k <= |s|
    ensures forall x :: k <= x < SpacesEnd(s, k) ==> IsWhitespace(s[x])
    ensures SpacesEnd(s, k) == |s| || !IsWhitespace(s[SpacesEnd(s, k)])
    decreases |s| - k
  {
    if k < |s| && IsWhitespace(s[k]) {
      SpacesEndSpans(s, k + 1);
    }
  }

  /** The end of the greedy `[\d,.]+` run that starts at `k`. */
  function RateCharsEnd(s: string, k: nat): (e: nat)
    requires k <= |s|
    ensures k <= e <= |s|
    decreases |s| - k
  {
    if k < |s| && IsRateChar(s[k]) then RateCharsEnd(s, k + 1) else k
  }

  /** `[\d,.]+` from `k` covers only rate characters and stops before the first other character. */
  lemma {:induction false} RateCharsEndSpans(s: string, k: nat)
    requires k <= |s|
    ensures forall x :: k <= x < RateCharsEnd(s, k) ==> IsRateChar(s[x])
    ensures RateCharsEnd(s, k) == |s| || !IsRateChar(s[RateCharsEnd(s, k)])
    decreases |s| - k
  {
    if k < |s| && IsRateChar(s[k]) {
      RateCharsEndSpans(s, k + 1);
    }
  }

  /** Whether `=\s*[\d,.]+` can match starting at `eq`. */
  predicate EqualsThenRate(s: string, eq: nat)
    requires eq < |s|
  {
    s[eq] == '=' && var g0 := SpacesEnd(s, eq + 1); g0 < |s| && IsRateChar(s[g0])
  }

  /** No line terminator in `s[a..b]`, so `.+` can cover it. */
  ghost predicate NoLineBreak(s: string, a: int, b: int)
    requires 0 <= a && b <= |s|
  {
    forall k :: a <= k < b ==> !IsLineTerminator(s[k])
  }

  /**
   * The lazy `.+?`: having covered `s[..eq)`, the first position from `eq`
   * on where `=\s*[\d,.]+` matches, giving up at a line terminator.
   */
  function LazyScan(s: string, eq: nat): (r: Option<nat>)
    requires eq <= |s|
    ensures r.Some? ==> eq <= r.value < |s|
    decreases |s| - eq
  {
    if eq == |s| then None
    else if EqualsThenRate(s, eq) then Some(eq)
    else if IsLineTerminator(s[eq]) then None
    else LazyScan(s, eq + 1)
  }

  /**
   * The scan stops at the first position, reachable without crossing a line
   * terminator, where `=\s*[\d,.]+` matches, and gives up only when there is none.
   */
  lemma {:induction false} LazyScanFirst(s: string, eq: nat)
    requires eq <= |s|
    ensures var r := LazyScan(s, eq);
      && (r.Some? ==> EqualsThenRate(s, r.value) && NoLineBreak(s, eq, r.value))
      && (r.Some? ==> forall k :: eq <= k < r.value ==> !EqualsThenRate(s, k))
      && (r.None? ==> forall k :: eq <= k < |s| && NoLineBreak(s, eq, k) ==> !EqualsThenRate(s, k))
    decreases |s| - eq
  {
    if eq < |s| && !EqualsThenRate(s, eq) && !IsLineTerminator(s[eq]) {
      LazyScanFirst(s, eq + 1);
    }
  }

  /** The position of `=` in the match starting at `i`, if one starts there. */
  function MatchAt(s: string, i: nat): (r: Option<nat>)
    requires i < |s|
  {
    if s[i] == '1' && i + 1 < |s| && !IsLineTerminator(s[i + 1]) then LazyScan(s, i + 2) else None
  }

  /** The reported match, searching from start position `i` on. */
  function Search(s: string, i: nat): Option<Match>
    requires i <= |s|
    decreases |s| - i
  {
    if i == |s| then None
    else match MatchAt(s, i)
      case Some(eq) =>
        var g0 := SpacesEnd(s, eq + 1);
        Some(Match(i, eq, g0, RateCharsEnd(s, g0)))
      case None => Search(s, i + 1)
  }

  /**
   * The search reports the first start position from `i` on at which a
   * match starts, with the greedy `\s*` and group from that match's `=`;
   * it reports nothing exactly when no match starts from `i` on.
   */
  lemma {:induction false} SearchFindsFirst(s: string, i: nat)
    requires i <= |s|
    ensures var r := Search(s, i);
      && (r.Some? ==> i <= r.value.start < |s| && MatchAt(s, r.value.start) == Some(r.value.eq))
      && (r.Some? ==> r.value.groupStart == SpacesEnd(s, r.value.eq + 1))
      && (r.Some? ==> r.value.groupEnd == RateCharsEnd(s, r.value.groupStart))
      && (r.Some? ==> forall k :: i <= k < r.value.start ==> MatchAt(s, k).None?)
      && (r.None? ==> forall k :: i <= k < |s| ==> MatchAt(s, k).None?)
    decreases |s| - i
  {
    if i < |s| && MatchAt(s, i).None? {
      SearchFindsFirst(s, i + 1);
    }
  }

  /** `rateText.match(/1.+?=\s*([\d,.]+)/)`. */
  function Find(s: string): Option<Match> {
    Search(s, 0)
  }

  /** Every way of matching at `i` agrees with `MatchAt` on where the `=` can be. */
  lemma MatchAtComplete(s: string, i: int, eq: int, g0: int, g1: int)
    requires RegexMatch(s, i, eq, g0, g1)
    ensures MatchAt(s, i).Some? && MatchAt(s, i).value <= eq
    ensures g0 == SpacesEnd(s, eq + 1) && g1 <= RateCharsEnd(s, g0)
  {
    SpacesEndUnique(s, eq + 1, g0);
    RateCharsEndBound(s, g0, g1);
    assert EqualsThenRate(s, eq);
    assert NoLineBreak(s, i + 2, eq);
    LazyScanFirst(s, i + 2);
  }

  /** White space up to `g` and none at `g`: the greedy `\s*` from `k` ends exactly at `g`. */
  lemma {:induction false} SpacesEndUnique(s: string, k: nat, g: nat)
    requires k <= g < |s|
    requires forall x :: k <= x < g ==> IsWhitespace(s[x])
    requires !IsWhitespace(s[g])
    ensures SpacesEnd(s, k) == g
    decreases g - k
  {
    if k < g {
      SpacesEndUnique(s, k + 1, g);
    }
  }

  /** Rate characters up to `g`: the greedy group from `k` reaches at least `g`. */
  lemma {:induction false} RateCharsEndBound(s: string, k: nat, g: nat)
    requires k <= g <= |s|
    requires forall x :: k <= x < g ==> IsRateChar(s[x])
    ensures g <= RateCharsEnd(s, k)
    decreases g - k
  {
    if k < g {
      RateCharsEndBound(s, k + 1, g);
    }
  }

  /**
   * The match `Find` reports is a match of the expression, its group cannot
   * be extended, and it is the one the engine prefers over every other
   * match: leftmost start, then shortest `.+?`, then longest group.
   */
  lemma FindIsPreferredMatch(s: string)
    requires Find(s).Some?
    ensures var m := Find(s).value;
      && RegexMatch(s, m.start, m.eq, m.groupStart, m.groupEnd)
      && (m.groupEnd == |s| || !IsRateChar(s[m.groupEnd]))
      && forall i, eq, g0, g1 :: RegexMatch(s, i, eq, g0, g1) ==> Preferred(m, i, eq, g0, g1)
  {
    FindIsMatch(s);
    forall i, eq, g0, g1 | RegexMatch(s, i, eq, g0, g1)
      ensures Preferred(Find(s).value, i, eq, g0, g1)
    {
      FindPreferredOver(s, i, eq, g0, g1);
    }
  }

  /** The match `Find` reports is a match of the expression whose group cannot be extended. */
  lemma FindIsMatch(s: string)
    requires Find(s).Some?
    ensures var m := Find(s).value;
      && RegexMatch(s, m.start, m.eq, m.groupStart, m.groupEnd)
      && (m.groupEnd == |s| || !IsRateChar(s[m.groupEnd]))
  {
    SearchFindsFirst(s, 0);
    ReportedIsMatch(s, Find(s).value);
  }

  /** A match built as `Search` builds it, from where `MatchAt` finds the `=`, is a match of the expression. */
  lemma ReportedIsMatch(s: string, m: Match)
    requires m.start < |s| && MatchAt(s, m.start) == Some(m.eq)
    requires m.groupStart == SpacesEnd(s, m.eq + 1) && m.groupEnd == RateCharsEnd(s, m.groupStart)
    ensures RegexMatch(s, m.start, m.eq, m.groupStart, m.groupEnd)
    ensures m.groupEnd == |s| || !IsRateChar(s[m.groupEnd])
  {
    var i, eq, g0, g1 := m.start, m.eq, m.groupStart, m.groupEnd;
    assert s[i] == '1' && i + 1 < |s| && !IsLineTerminator(s[i + 1]) && LazyScan(s, i + 2) == Some(eq);
    LazyScanFirst(s, i + 2);
    assert s[eq] == '=' && g0 < |s| && IsRateChar(s[g0]);
    assert NoLineBreak(s, i + 2, eq);
    assert forall k :: i < k < eq ==> !IsLineTerminator(s[k]);
    SpacesEndSpans(s, eq + 1);
    RateCharsEndSpans(s, g0);
    assert g0 < g1;
  }

  /** The engine prefers the match `Find` reports over any one match of the expression. */
  lemma FindPreferredOver(s: string, i: int, eq: int, g0: int, g1: int)
    requires Find(s).Some?
    requires RegexMatch(s, i, eq, g0, g1)
    ensures Preferred(Find(s).value, i, eq, g0, g1)
  {
    SearchFindsFirst(s, 0);
    MatchAtComplete(s, i, eq, g0, g1);
  }

  /** The expression finds no match exactly when no way of matching exists. */
  lemma FindNoneIffNoMatch(s: string)
    ensures Find(s).None? <==> forall i, eq, g0, g1 :: !RegexMatch(s, i, eq, g0, g1)
  {
    if Find(s).None? {
      SearchFindsFirst(s, 0);
      forall i, eq, g0, g1 | RegexMatch(s, i, eq, g0, g1)
        ensures false
      {
        MatchAtComplete(s, i, eq, g0, g1);
      }
    } else {
      FindIsPreferredMatch(s);
    }
  }

  /** `replace(/,/g, "")`: the text with every comma removed, the rest kept in order. */
  function StripCommas(t: string): string
  {
    if t == [] then []
    else (if t[0] == ',' then [] else [t[0]]) + StripCommas(t[1..])
  }

  /** No comma is left, and nothing is added. */
  lemma {:induction false} StripCommasRemovesAll(t: string)
    ensures ',' !in StripCommas(t)
    ensures |StripCommas(t)| <= |t|
  {
    if t != [] {
      StripCommasRemovesAll(t[1..]);
    }
  }

  /** Stripping commas distributes over concatenation. */
  lemma {:induction false} StripCommasAppend(a: string, b: string)
    ensures StripCommas(a + b) == StripCommas(a) + StripCommas(b)
  {
    if a == [] {
      assert a + b == b;
    } else {
      assert (a + b)[0] == a[0];
      assert (a + b)[1..] == a[1..] + b;
      StripCommasAppend(a[1..], b);
    }
  }

  /** A thousands separator between two comma-free runs is dropped, the runs joined. */
  lemma StripSeparator(a: string, b: string)
    requires ',' !in a && ',' !in b
    ensures StripCommas(a + [','] + b) == a + b
  {
    var sep: string := [','];
    assert StripCommas(sep) == [] by {
      assert sep[1..] == [];
    }
    StripCommasAppend(a, sep);
    StripCommasIdentity(a);
    assert StripCommas(a + sep) == a;
    StripCommasAppend(a + sep, b);
    StripCommasIdentity(b);
  }

  /** Text without commas is left as it is, so stripping twice is stripping once. */
  lemma {:induction false} StripCommasIdentity(t: string)
    requires ',' !in t
    ensures StripCommas(t) == t
  {
    if t != [] {
      assert t == [t[0]] + t[1..];
      StripCommasIdentity(t[1..]);
    }
  }

  /** Stripping the commas from a run of `[\d,.]` leaves digits and dots only. */
  lemma {:induction false} StripCommasOfRateChars(t: string)
    requires forall k :: 0 <= k < |t| ==> IsRateChar(t[k])
    ensures DigitsAndDots(StripCommas(t))
  {
    if t != [] {
      StripCommasOfRateChars(t[1..]);
    }
  }

  /**
   * Text made of digits and dots is read by `parseFloat` as a number (not
   * NaN) exactly when it starts with a digit, or with a dot and a digit.
   */
  predicate ParsesAsNumber(t: string) {
    |t| > 0 && (IsDigit(t[0]) || (|t| > 1 && t[0] == '.' && IsDigit(t[1])))
  }

  predicate DigitsAndDots(t: string) {
    forall k :: 0 <= k < |t| ==> IsDigit(t[k]) || t[k] == '.'
  }

  /** Lines 18-20 as written: the captured group with its commas removed. */
  function RateTextAsWritten(s: string): (r: Option<string>)
    ensures r.None? <==> Find(s).None?
    ensures r.Some? ==> DigitsAndDots(r.value) && ',' !in r.value
  {
    match Find(s)
    case None => None
    case Some(m) =>
      FindIsPreferredMatch(s);
      StripCommasOfRateChars(s[m.groupStart..m.groupEnd]);
      StripCommasRemovesAll(s[m.groupStart..m.groupEnd]);
      Some(StripCommas(s[m.groupStart..m.groupEnd]))
  }

  /**
   * The corrected extraction: as written, but a captured group from which
   * `parseFloat` reads no number (once its commas are gone it starts neither
   * with a digit nor with a dot followed by a digit, as in a loading
   * placeholder "...") gives no rate instead of NaN.
   */
  function RateText(s: string): (r: Option<string>)
    ensures r.Some? ==> r == RateTextAsWritten(s) && ParsesAsNumber(r.value)
    ensures r.None? ==> RateTextAsWritten(s).None? || !ParsesAsNumber(RateTextAsWritten(s).value)
  {
    match RateTextAsWritten(s)
    case Some(t) => if ParsesAsNumber(t) then Some(t) else None
    case None => None
  }

  /**
   * `extractRateFromPage` as written: no rate when the result element never
   * appeared or had no text (the caught exception), none when the text has
   * no match, otherwise the comma-free group `parseFloat` is given, which
   * it may read as NaN.
   */
  function ExtractRateFromPage(content: Option<string>): (r: Option<string>)
    ensures content.None? ==> r.None?
    ensures content.Some? ==> (r.None? <==> Find(content.value).None?)
    ensures r.Some? ==> DigitsAndDots(r.value) && ',' !in r.value
  {
    match content
    case None => None
    case Some(text) => RateTextAsWritten(text)
  }

  /**
   * The corrected `extractRateFromPage`: as written, except that a group
   * `parseFloat` reads as NaN gives no rate.
   */
  function CorrectedExtractRate(content: Option<string>): (r: Option<string>)
    ensures content.None? ==> r.None?
    ensures r.Some? ==> r == ExtractRateFromPage(content)
    ensures r.Some? ==> |r.value| > 0 && ParsesAsNumber(r.value) && DigitsAndDots(r.value) && ',' !in r.value
    ensures r.None? ==> ExtractRateFromPage(content).None? || !ParsesAsNumber(ExtractRateFromPage(content).value)
  {
    match content
    case None => None
    case Some(text) => RateText(text)
  }

  /** A converter's result text with a thousands separator. */
  const ThousandsPage: string := "1 USD = 1,234.56 JPY"

  /** A converter's result text while the rate is still loading. */
  const PlaceholderPage: string := "1.00 USD = ... EUR"

  /** A converter's result text whose rate is a lone comma. */
  const CommaOnlyPage: string := "1 USD = , EUR"

  /** The match in any text spelled like `ThousandsPage`, character by character. */
  lemma ThousandsShapeMatch(s: string)
    requires |s| == 20
    requires s[0] == '1' && s[1] == ' ' && s[2] == 'U' && s[3] == 'S' && s[4] == 'D' && s[5] == ' '
    requires s[6] == '=' && s[7] == ' '
    requires s[8] == '1' && s[9] == ',' && s[10] == '2' && s[11] == '3' && s[12] == '4'
    requires s[13] == '.' && s[14] == '5' && s[15] == '6'
    requires s[16] == ' ' && s[17] == 'J' && s[18] == 'P' && s[19] == 'Y'
    ensures Find(s) == Some(Match(0, 6, 8, 16))
  {
    assert SpacesEnd(s, 7) == 8 by {
      assert SpacesEnd(s, 8) == 8;
    }
    assert LazyScan(s, 2) == Some(6) by {
      assert LazyScan(s, 6) == Some(6);
      assert LazyScan(s, 5) == LazyScan(s, 6);
      assert LazyScan(s, 4) == LazyScan(s, 5);
      assert LazyScan(s, 3) == LazyScan(s, 4);
      assert LazyScan(s, 2) == LazyScan(s, 3);
    }
    assert MatchAt(s, 0) == Some(6);
    assert RateCharsEnd(s, 8) == 16 by {
      assert RateCharsEnd(s, 16) == 16;
      assert RateCharsEnd(s, 15) == 16;
      assert RateCharsEnd(s, 14) == 16;
      assert RateCharsEnd(s, 13) == 16;
      assert RateCharsEnd(s, 12) == 16;
      assert RateCharsEnd(s, 11) == 16;
      assert RateCharsEnd(s, 10) == 16;
      assert RateCharsEnd(s, 9) == 16;
    }
  }

  /** The group of a text spelled like `ThousandsPage` loses its one comma. */
  lemma ThousandsShapeStripped(s: string)
    requires |s| == 20
    requires s[8] == '1' && s[9] == ',' && s[10] == '2' && s[11] == '3' && s[12] == '4'
    requires s[13] == '.' && s[14] == '5' && s[15] == '6'
    ensures StripCommas(s[8..16]) == "1234.56"
  {
    var tail := s[10..16];
    assert s[8..16] == [s[8]] + [','] + tail;
    assert ',' !in tail by {
      assert tail == "234.56";
    }
    StripSeparator([s[8]], tail);
    assert [s[8]] + tail == "1234.56";
  }

  /** A converter's text gives the rate with its thousands separator removed. */
  lemma ExtractsThousands()
    ensures Find(ThousandsPage) == Some(Match(0, 6, 8, 16))
    ensures RateText(ThousandsPage) == Some("1234.56")
  {
    ThousandsShapeMatch(ThousandsPage);
    ThousandsShapeStripped(ThousandsPage);
  }

  /** The match in any text spelled like `PlaceholderPage`, character by character. */
  lemma PlaceholderShapeMatch(s: string)
    requires |s| == 18
    requires s[0] == '1' && s[1] == '.' && s[2] == '0' && s[3] == '0' && s[4] == ' '
    requires s[5] == 'U' && s[6] == 'S' && s[7] == 'D' && s[8] == ' '
    requires s[9] == '=' && s[10] == ' ' && s[11] == '.' && s[12] == '.' && s[13] == '.'
    requires s[14] == ' ' && s[15] == 'E' && s[16] == 'U' && s[17] == 'R'
    ensures Find(s) == Some(Match(0, 9, 11, 14))
    ensures s[11..14] == "..."
  {
    assert SpacesEnd(s, 10) == 11 by {
      assert SpacesEnd(s, 11) == 11;
    }
    assert LazyScan(s, 2) == Some(9) by {
      assert LazyScan(s, 9) == Some(9);
      assert LazyScan(s, 8) == LazyScan(s, 9);
      assert LazyScan(s, 7) == LazyScan(s, 8);
      assert LazyScan(s, 6) == LazyScan(s, 7);
      assert LazyScan(s, 5) == LazyScan(s, 6);
      assert LazyScan(s, 4) == LazyScan(s, 5);
      assert LazyScan(s, 3) == LazyScan(s, 4);
      assert LazyScan(s, 2) == LazyScan(s, 3);
    }
    assert MatchAt(s, 0) == Some(9);
    assert RateCharsEnd(s, 11) == 14 by {
      assert RateCharsEnd(s, 14) == 14;
      assert RateCharsEnd(s, 13) == 14;
      assert RateCharsEnd(s, 12) == 14;
    }
  }

  /**
   * A loading placeholder is captured as "...": as written the extraction
   * hands `parseFloat` a text it reads as NaN; corrected, it gives no rate.
   */
  lemma PlaceholderGivesNaNText()
    ensures RateTextAsWritten(PlaceholderPage) == Some("...")
    ensures !ParsesAsNumber("...")
    ensures RateText(PlaceholderPage) == None
  {
    PlaceholderShapeMatch(PlaceholderPage);
    StripCommasIdentity("...");
  }

  /** The match in any text spelled like `CommaOnlyPage`, character by character. */
  lemma CommaOnlyShapeMatch(s: string)
    requires |s| == 13
    requires s[0] == '1' && s[1] == ' ' && s[2] == 'U' && s[3] == 'S' && s[4] == 'D' && s[5] == ' '
    requires s[6] == '=' && s[7] == ' ' && s[8] == ',' && s[9] == ' '
    requires s[10] == 'E' && s[11] == 'U' && s[12] == 'R'
    ensures Find(s) == Some(Match(0, 6, 8, 9))
    ensures s[8..9] == ","
  {
    assert SpacesEnd(s, 7) == 8 by {
      assert SpacesEnd(s, 8) == 8;
    }
    assert LazyScan(s, 2) == Some(6) by {
      assert LazyScan(s, 6) == Some(6);
      assert LazyScan(s, 5) == LazyScan(s, 6);
      assert LazyScan(s, 4) == LazyScan(s, 5);
      assert LazyScan(s, 3) == LazyScan(s, 4);
      assert LazyScan(s, 2) == LazyScan(s, 3);
    }
    assert MatchAt(s, 0) == Some(6);
    assert RateCharsEnd(s, 8) == 9 by {
      assert RateCharsEnd(s, 9) == 9;
    }
  }

  /**
   * A group that is a lone comma is stripped to the empty text: as written
   * the extraction hands `parseFloat` "" (NaN); corrected, it gives no rate.
   */
  lemma CommaOnlyGivesEmptyText()
    ensures RateTextAsWritten(CommaOnlyPage) == Some("")
    ensures !ParsesAsNumber("")
    ensures RateText(CommaOnlyPage) == None
  {
    CommaOnlyShapeMatch(CommaOnlyPage);
    var g: string := [','];
    assert StripCommas(g) == [] by {
      assert g[1..] == [];
    }
  }
}
