/**
 * The closed set of currency codes and the key convention of the rate map
 * (src/types.ts): `COMMON_CURRENCIES`, the `Currency` type derived from it,
 * and `CurrencyRates`, whose keys read "<BASE> / <QUOTE>".
 */
module Currencies {
  import opened Wrappers

  /** `COMMON_CURRENCIES`, in the order the source lists them. */
  const CommonCurrencies: seq<string> := [
    "USD", "EUR", "GBP", "JPY", "AUD", "CAD", "CHF", "CNY", "HKD", "NZD",
    "SEK", "KRW", "SGD", "NOK", "MXN", "INR", "RUB", "ZAR", "TRY", "BRL",
    "TWD", "DKK", "PLN", "THB", "IDR", "HUF", "CZK", "ILS", "CLP", "PHP",
    "AED", "SAR", "MYR", "RON", "BGN", "HRK", "PKR", "ISK", "VND", "EGP"
  ]

  /** `Currency`: exactly the members of `COMMON_CURRENCIES`. */
  type Currency = c: string | c in CommonCurrencies witness "USD"

  predicate IsUpperAscii(c: char) {
    'A' <= c <= 'Z'
  }

  /** A currency code: three upper-case ASCII letters. */
  predicate IsCode(s: string) {
    |s| == 3 && IsUpperAscii(s[0]) && IsUpperAscii(s[1]) && IsUpperAscii(s[2])
  }

  predicate AllCodes(cs: seq<string>) {
    forall i :: 0 <= i < |cs| ==> IsCode(cs[i])
  }

  predicate Distinct(cs: seq<string>) {
    forall i, j :: 0 <= i < j < |cs| ==> cs[i] != cs[j]
  }

  /**
   * The position of a code in `COMMON_CURRENCIES` (what `indexOf` returns),
   * and 40 for any other string. Written as a table so that distinctness of
   * the list follows from `CodeIndex` being a left inverse of indexing.
   */
  function CodeIndex(s: string): nat {
    match s
    case "USD" => 0
    case "EUR" => 1
    case "GBP" => 2
    case "JPY" => 3
    case "AUD" => 4
    case "CAD" => 5
    case "CHF" => 6
    case "CNY" => 7
    case "HKD" => 8
    case "NZD" => 9
    case "SEK" => 10
    case "KRW" => 11
    case "SGD" => 12
    case "NOK" => 13
    case "MXN" => 14
    case "INR" => 15
    case "RUB" => 16
    case "ZAR" => 17
    case "TRY" => 18
    case "BRL" => 19
    case "TWD" => 20
    case "DKK" => 21
    case "PLN" => 22
    case "THB" => 23
    case "IDR" => 24
    case "HUF" => 25
    case "CZK" => 26
    case "ILS" => 27
    case "CLP" => 28
    case "PHP" => 29
    case "AED" => 30
    case "SAR" => 31
    case "MYR" => 32
    case "RON" => 33
    case "BGN" => 34
    case "HRK" => 35
    case "PKR" => 36
    case "ISK" => 37
    case "VND" => 38
    case "EGP" => 39
    case _ => 40
  }

  /** `CodeIndex` and indexing into the list are inverse to each other. */
  lemma CodeIndexInverse()
    ensures forall i :: 0 <= i < |CommonCurrencies| ==> CodeIndex(CommonCurrencies[i]) == i
  {
    // ten positions at a time: one check of all forty costs far more than four
    CodeIndexOnFirstTen();
    CodeIndexOnSecondTen();
    CodeIndexOnThirdTen();
    CodeIndexOnFourthTen();
  }

  lemma CodeIndexOnFirstTen()
    ensures forall i :: 0 <= i < 10 ==> CodeIndex(CommonCurrencies[i]) == i
  {
  }

  lemma CodeIndexOnSecondTen()
    ensures forall i :: 10 <= i < 20 ==> CodeIndex(CommonCurrencies[i]) == i
  {
  }

  lemma CodeIndexOnThirdTen()
    ensures forall i :: 20 <= i < 30 ==> CodeIndex(CommonCurrencies[i]) == i
  {
  }

  lemma CodeIndexOnFourthTen()
    ensures forall i :: 30 <= i < 40 ==> CodeIndex(CommonCurrencies[i]) == i
  {
  }

  /** Every currency sits at the position `CodeIndex` gives it. */
  lemma CodeIndexFinds(c: Currency)
    ensures CodeIndex(c) < |CommonCurrencies| && CommonCurrencies[CodeIndex(c)] == c
  {
    CodeIndexInverse();
    var i :| 0 <= i < |CommonCurrencies| && CommonCurrencies[i] == c;
  }

  /** The list has 40 entries, pairwise distinct, each three upper-case ASCII letters. */
  lemma CommonCurrenciesWellFormed()
    ensures |CommonCurrencies| == 40
    ensures AllCodes(CommonCurrencies)
    ensures Distinct(CommonCurrencies)
  {
    CodeIndexInverse();
  }

  /** The `CurrencyRates` key of a pair: base, " / ", quote (as in "USD / EUR"). */
  function PairKey(base: string, quote: string): (key: string)
    ensures |key| == |base| + 3 + |quote|
    ensures key[..|base|] == base && key[|base|..|base| + 3] == " / " && key[|base| + 3..] == quote
  {
    base + " / " + quote
  }

  /** Reads a key of the form "<BASE> / <QUOTE>" back into its two codes. */
  function SplitKey(key: string): (r: Option<(string, string)>)
    ensures r.Some? ==> IsCode(r.value.0) && IsCode(r.value.1)
  {
    if |key| == 9 && key[3..6] == " / " && IsCode(key[..3]) && IsCode(key[6..]) then
      Some((key[..3], key[6..]))
    else
      None
  }

  /** Splitting the key of two codes gives back the two codes. */
  lemma SplitPairKey(base: string, quote: string)
    requires IsCode(base) && IsCode(quote)
    ensures SplitKey(PairKey(base, quote)) == Some((base, quote))
  {
    var key := PairKey(base, quote);
    assert key[..3] == base && key[3..6] == " / " && key[6..] == quote;
  }

  /** Every key that splits was formed by `PairKey` from its two parts. */
  lemma PairKeyOfSplit(key: string)
    requires SplitKey(key).Some?
    ensures PairKey(SplitKey(key).value.0, SplitKey(key).value.1) == key
  {
    assert key == key[..3] + key[3..6] + key[6..];
  }

  /**
   * With bases of equal length (every code has three letters) the key
   * determines the pair, so distinct pairs never share a key.
   */
  lemma PairKeyInjective(base: string, quote: string, base': string, quote': string)
    requires |base| == |base'|
    requires PairKey(base, quote) == PairKey(base', quote')
    ensures base == base' && quote == quote'
  {
    var key := PairKey(base, quote);
    assert base == key[..|base|] == base';
  }

  /** Only a same-currency pair has a key of the form "X / X". */
  lemma SelfKeyOnlyFromSamePair(base: string, quote: string, x: string)
    requires IsCode(base) && IsCode(x)
    ensures PairKey(base, quote) == PairKey(x, x) <==> base == x && quote == x
  {
    if PairKey(base, quote) == PairKey(x, x) {
      PairKeyInjective(base, quote, x, x);
    }
  }
}
