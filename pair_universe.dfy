/**
 * The order in which `getAllCurrencyRates` visits currency pairs
 * (src/index.ts:54-56): for each base in list order, every quote in list
 * order, skipping a quote equal to the base. A visit is recorded as the pair
 * of list positions (base index, quote index).
 */
module PairUniverse {
  import opened Currencies

  /** (position of the base, position of the quote) in the code list. */
  type Pair = (nat, nat)

  /** Outer-base, inner-quote order on positions. */
  predicate LexBefore(p: Pair, q: Pair) {
    p.0 < q.0 || (p.0 == q.0 && p.1 < q.1)
  }

  predicate InRange(cs: seq<string>, ps: seq<Pair>) {
    forall k :: 0 <= k < |ps| ==> ps[k].0 < |cs| && ps[k].1 < |cs|
  }

  /** The visits of the inner loop for base `cs[i]` before it reaches quote position `j`. */
  function RowPrefix(cs: seq<string>, i: nat, j: nat): seq<Pair>
    requires i < |cs| && j <= |cs|
    decreases j
  {
    if j == 0 then []
    else RowPrefix(cs, i, j - 1) + (if cs[i] == cs[j - 1] then [] else [(i, j - 1)])
  }

  /** The visits of the outer loop before it reaches base position `i`. */
  function RowsPrefix(cs: seq<string>, i: nat): seq<Pair>
    requires i <= |cs|
    decreases i
  {
    if i == 0 then [] else RowsPrefix(cs, i - 1) + RowPrefix(cs, i - 1, |cs|)
  }

  /** Every visit of both loops, in the order they happen. */
  function VisitOrder(cs: seq<string>): (r: seq<Pair>)
    ensures InRange(cs, r)
    ensures forall k :: 0 <= k < |r| ==> cs[r[k].0] != cs[r[k].1]
  {
    RowsPrefixRange(cs, |cs|);
    RowsPrefix(cs, |cs|)
  }

  /** The inner loop for base `i` visits only quotes before `j` whose code differs from the base's. */
  lemma {:induction false} RowPrefixRange(cs: seq<string>, i: nat, j: nat)
    requires i < |cs| && j <= |cs|
    ensures forall k :: 0 <= k < |RowPrefix(cs, i, j)| ==>
      RowPrefix(cs, i, j)[k].0 == i && RowPrefix(cs, i, j)[k].1 < j && cs[RowPrefix(cs, i, j)[k].1] != cs[i]
    decreases j
  {
    if j > 0 {
      RowPrefixRange(cs, i, j - 1);
      var front: seq<Pair> := RowPrefix(cs, i, j - 1);
      var last: seq<Pair> := if cs[i] == cs[j - 1] then [] else [(i, j - 1)];
      assert RowPrefix(cs, i, j) == front + last;
      forall k | 0 <= k < |front + last|
        ensures (front + last)[k].0 == i && (front + last)[k].1 < j && cs[(front + last)[k].1] != cs[i]
      {
        if k < |front| {
          assert (front + last)[k] == front[k];
        }
      }
    }
  }

  /** The outer loop before base `i` visits only pairs of positions in range whose codes differ. */
  lemma {:induction false} RowsPrefixRange(cs: seq<string>, i: nat)
    requires i <= |cs|
    ensures forall k :: 0 <= k < |RowsPrefix(cs, i)| ==>
      RowsPrefix(cs, i)[k].0 < i && RowsPrefix(cs, i)[k].1 < |cs| && cs[RowsPrefix(cs, i)[k].0] != cs[RowsPrefix(cs, i)[k].1]
    decreases i
  {
    if i > 0 {
      RowsPrefixRange(cs, i - 1);
      RowPrefixRange(cs, i - 1, |cs|);
      var front: seq<Pair>, row: seq<Pair> := RowsPrefix(cs, i - 1), RowPrefix(cs, i - 1, |cs|);
      assert RowsPrefix(cs, i) == front + row;
      forall k | 0 <= k < |front + row|
        ensures (front + row)[k].0 < i && (front + row)[k].1 < |cs| && cs[(front + row)[k].0] != cs[(front + row)[k].1]
      {
        if k < |front| {
          assert (front + row)[k] == front[k];
        } else {
          assert (front + row)[k] == row[k - |front|];
        }
      }
    }
  }

  predicate StrictlyOrdered(ps: seq<Pair>) {
    forall k, k' :: 0 <= k < k' < |ps| ==> LexBefore(ps[k], ps[k'])
  }

  predicate NoDuplicates(ps: seq<Pair>) {
    forall k, k' :: 0 <= k < k' < |ps| ==> ps[k] != ps[k']
  }

  lemma {:induction false} RowPrefixOrdered(cs: seq<string>, i: nat, j: nat)
    requires i < |cs| && j <= |cs|
    ensures StrictlyOrdered(RowPrefix(cs, i, j))
    decreases j
  {
    if j > 0 {
      RowPrefixOrdered(cs, i, j - 1);
      RowPrefixRange(cs, i, j - 1);
    }
  }

  lemma {:induction false} RowsPrefixOrdered(cs: seq<string>, i: nat)
    requires i <= |cs|
    ensures StrictlyOrdered(RowsPrefix(cs, i))
    decreases i
  {
    if i > 0 {
      var front, row := RowsPrefix(cs, i - 1), RowPrefix(cs, i - 1, |cs|);
      RowsPrefixOrdered(cs, i - 1);
      RowPrefixOrdered(cs, i - 1, |cs|);
      RowsPrefixRange(cs, i - 1);
      RowPrefixRange(cs, i - 1, |cs|);
      var r := front + row;
      forall k, k' | 0 <= k < k' < |r|
        ensures LexBefore(r[k], r[k'])
      {
        if k' < |front| {
          assert r[k] == front[k] && r[k'] == front[k'];
        } else if k < |front| {
          assert r[k] == front[k] && r[k'] == row[k' - |front|];
        } else {
          assert r[k] == row[k - |front|] && r[k'] == row[k' - |front|];
        }
      }
    }
  }

  /**
   * The visits are strictly increasing in outer-base, inner-quote order, so
   * no pair is visited twice.
   */
  lemma VisitOrderOrdered(cs: seq<string>)
    ensures StrictlyOrdered(VisitOrder(cs))
    ensures NoDuplicates(VisitOrder(cs))
  {
    RowsPrefixOrdered(cs, |cs|);
  }

  /** Where the inner loop for base `i` visits quote `b`, when the codes differ. */
  lemma {:induction false} RowPrefixHas(cs: seq<string>, i: nat, j: nat, b: nat) returns (k: nat)
    requires i < |cs| && b < j <= |cs| && cs[i] != cs[b]
    ensures k < |RowPrefix(cs, i, j)| && RowPrefix(cs, i, j)[k] == (i, b)
    decreases j
  {
    var front: seq<Pair> := RowPrefix(cs, i, j - 1);
    var last: seq<Pair> := if cs[i] == cs[j - 1] then [] else [(i, j - 1)];
    assert RowPrefix(cs, i, j) == front + last;
    if b < j - 1 {
      k := RowPrefixHas(cs, i, j - 1, b);
      assert (front + last)[k] == front[k];
    } else {
      k := |front|;
      assert (front + last)[k] == last[0];
    }
  }

  lemma RowsPrefixUnfold(cs: seq<string>, i: nat)
    requires 0 < i <= |cs|
    ensures RowsPrefix(cs, i) == RowsPrefix(cs, i - 1) + RowPrefix(cs, i - 1, |cs|)
  {
  }

  /** A visit of an earlier row keeps its place when one more row is done. */
  lemma EarlierRowKeeps(cs: seq<string>, i: nat, k: nat, x: Pair)
    requires 0 < i <= |cs|
    requires k < |RowsPrefix(cs, i - 1)| && RowsPrefix(cs, i - 1)[k] == x
    ensures k < |RowsPrefix(cs, i)| && RowsPrefix(cs, i)[k] == x
  {
    RowsPrefixUnfold(cs, i);
  }

  /** A visit of the last row sits after all earlier rows. */
  lemma LastRowPlace(cs: seq<string>, i: nat, k: nat, x: Pair)
    requires 0 < i <= |cs|
    requires k < |RowPrefix(cs, i - 1, |cs|)| && RowPrefix(cs, i - 1, |cs|)[k] == x
    ensures |RowsPrefix(cs, i - 1)| + k < |RowsPrefix(cs, i)| && RowsPrefix(cs, i)[|RowsPrefix(cs, i - 1)| + k] == x
  {
    RowsPrefixUnfold(cs, i);
  }

  /** Where the outer loop visits `(a, b)` before base position `i`, when the codes differ. */
  lemma {:induction false} RowsPrefixHas(cs: seq<string>, i: nat, a: nat, b: nat) returns (k: nat)
    requires a < i <= |cs| && b < |cs| && cs[a] != cs[b]
    ensures k < |RowsPrefix(cs, i)| && RowsPrefix(cs, i)[k] == (a, b)
    decreases i
  {
    if a < i - 1 {
      k := RowsPrefixHas(cs, i - 1, a, b);
      EarlierRowKeeps(cs, i, k, (a, b));
    } else {
      var k' := RowPrefixHas(cs, i - 1, |cs|, b);
      k := |RowsPrefix(cs, i - 1)| + k';
      LastRowPlace(cs, i, k', (a, b));
    }
  }

  /** A pair of positions is visited exactly when the two codes there differ. */
  lemma VisitOrderMembers(cs: seq<string>, a: nat, b: nat)
    requires a < |cs| && b < |cs|
    ensures (a, b) in VisitOrder(cs) <==> cs[a] != cs[b]
  {
    if cs[a] != cs[b] {
      var k := RowsPrefixHas(cs, |cs|, a, b);
    }
  }

  lemma {:induction false} RowPrefixLength(cs: seq<string>, i: nat, j: nat)
    requires Distinct(cs)
    requires i < |cs| && j <= |cs|
    ensures |RowPrefix(cs, i, j)| == if i < j then j - 1 else j
    decreases j
  {
    if j > 0 {
      RowPrefixLength(cs, i, j - 1);
      assert cs[i] == cs[j - 1] <==> i == j - 1;
    }
  }

  lemma {:induction false} RowsPrefixLength(cs: seq<string>, i: nat)
    requires Distinct(cs)
    requires i <= |cs|
    ensures |RowsPrefix(cs, i)| == i * (|cs| - 1)
    decreases i
  {
    if i > 0 {
      var front, row := RowsPrefix(cs, i - 1), RowPrefix(cs, i - 1, |cs|);
      RowsPrefixLength(cs, i - 1);
      RowPrefixLength(cs, i - 1, |cs|);
      assert |RowsPrefix(cs, i)| == |front| + |row|;
      assert |row| == |cs| - 1;
      RowsMore(|front|, |row|, i, |cs| - 1);
    }
  }

  lemma RowsMore(a: int, b: int, i: nat, n: int)
    requires i > 0 && a == (i - 1) * n && b == n
    ensures a + b == i * n
  {
  }

  /** With distinct codes the loops make N·(N−1) visits. */
  lemma VisitOrderLength(cs: seq<string>)
    requires Distinct(cs)
    ensures |VisitOrder(cs)| == |cs| * (|cs| - 1)
  {
    RowsPrefixLength(cs, |cs|);
  }

  lemma {:induction false} RowPrefixGrows(cs: seq<string>, i: nat, j: nat, j': nat)
    requires i < |cs| && j <= j' <= |cs|
    ensures RowPrefix(cs, i, j) <= RowPrefix(cs, i, j')
    decreases j'
  {
    if j < j' {
      RowPrefixGrows(cs, i, j, j' - 1);
    }
  }

  lemma {:induction false} RowsPrefixGrows(cs: seq<string>, i: nat, i': nat)
    requires i <= i' <= |cs|
    ensures RowsPrefix(cs, i) <= RowsPrefix(cs, i')
    decreases i'
  {
    if i < i' {
      RowsPrefixGrows(cs, i, i' - 1);
      PrefixExtends(RowsPrefix(cs, i), RowsPrefix(cs, i' - 1), RowPrefix(cs, i' - 1, |cs|), RowsPrefix(cs, i'));
    }
  }

  lemma PrefixExtends(a: seq<Pair>, b: seq<Pair>, c: seq<Pair>, d: seq<Pair>)
    requires a <= b && d == b + c
    ensures a <= d
  {
    assert d[..|b|] == b;
  }

  lemma PrefixPrepend(a: seq<Pair>, b: seq<Pair>, c: seq<Pair>, d: seq<Pair>, e: seq<Pair>)
    requires b <= c && d == a + b && e == a + c
    ensures d <= e
  {
    assert e[..|d|] == d;
  }

  lemma PrefixChain(x: seq<Pair>, y: seq<Pair>, y': seq<Pair>, z: seq<Pair>)
    requires x <= y && y == y' && y' <= z
    ensures x <= z
  {
  }

  /** The visits made before the loops reach base position `i` and quote position `j`. */
  function VisitedBefore(cs: seq<string>, i: nat, j: nat): seq<Pair>
    requires i < |cs| && j <= |cs|
  {
    RowsPrefix(cs, i) + RowPrefix(cs, i, j)
  }

  /** One step of the inner loop visits `(i, j)` exactly when the two codes differ. */
  lemma VisitedBeforeStep(cs: seq<string>, i: nat, j: nat)
    requires i < |cs| && j < |cs|
    ensures VisitedBefore(cs, i, j + 1)
      == VisitedBefore(cs, i, j) + if cs[i] == cs[j] then [] else [(i, j)]
  {
  }

  /** The inner loop starts and ends a row of the outer loop. */
  lemma VisitedBeforeRow(cs: seq<string>, i: nat)
    requires i < |cs|
    ensures VisitedBefore(cs, i, 0) == RowsPrefix(cs, i)
    ensures VisitedBefore(cs, i, |cs|) == RowsPrefix(cs, i + 1)
  {
  }

  /** What the loops have visited when they reach `(i, j)` is a prefix of all visits. */
  lemma VisitedSoFarIsPrefix(cs: seq<string>, i: nat, j: nat)
    requires i < |cs| && j <= |cs|
    ensures VisitedBefore(cs, i, j) <= VisitOrder(cs)
  {
    RowPrefixGrows(cs, i, j, |cs|);
    PrefixPrepend(RowsPrefix(cs, i), RowPrefix(cs, i, j), RowPrefix(cs, i, |cs|),
      VisitedBefore(cs, i, j), VisitedBefore(cs, i, |cs|));
    VisitedBeforeRow(cs, i);
    RowsPrefixGrows(cs, i + 1, |cs|);
    PrefixChain(VisitedBefore(cs, i, j), VisitedBefore(cs, i, |cs|), RowsPrefix(cs, i + 1), VisitOrder(cs));
  }
}
