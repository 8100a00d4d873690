/** NDCG@K with binary relevance, over reals and any strictly decreasing positive discount. */
module Ndcg {
  import opened Wrappers

  /** `weight(i)` stands for `1 / log2(i + 2)`. */
  ghost predicate Discount(weight: nat -> real) {
    && (forall i: nat :: weight(i) > 0.0)
    && (forall i: nat, j: nat :: i < j ==> weight(i) > weight(j))
  }

  function Gain(weight: nat -> real, retrieved: seq<string>, relevant: set<string>, n: nat): real
    requires n <= |retrieved|
  {
    if n == 0 then 0.0
    else Gain(weight, retrieved, relevant, n - 1) + (if retrieved[n - 1] in relevant then weight(n - 1) else 0.0)
  }

  function Ideal(weight: nat -> real, n: nat): real {
    if n == 0 then 0.0 else Ideal(weight, n - 1) + weight(n - 1)
  }

  function Ndcg(weight: nat -> real, retrieved: seq<string>, relevant: set<string>, k: nat): real {
    var idcg := Ideal(weight, Min(|relevant|, k));
    if idcg == 0.0 then 0.0 else Gain(weight, retrieved, relevant, Min(|retrieved|, k)) / idcg
  }

  method NdcgAtK(weight: nat -> real, retrieved: seq<string>, relevant: set<string>, k: nat) returns (score: real)
    ensures score == Ndcg(weight, retrieved, relevant, k)
  {
    var dcg := 0.0;
    for i := 0 to Min(|retrieved|, k)
      invariant dcg == Gain(weight, retrieved, relevant, i)
    {
      if retrieved[i] in relevant {
        dcg := dcg + weight(i);
      }
    }
    var idcg := 0.0;
    for i := 0 to Min(|relevant|, k)
      invariant idcg == Ideal(weight, i)
    {
      idcg := idcg + weight(i);
    }
    score := if idcg == 0.0 then 0.0 else dcg / idcg;
  }

  // ---- The rearrangement bound ----

  function Hits(retrieved: seq<string>, relevant: set<string>, n: nat): (h: nat)
    requires n <= |retrieved|
    ensures h <= n
  {
    if n == 0 then 0 else Hits(retrieved, relevant, n - 1) + (if retrieved[n - 1] in relevant then 1 else 0)
  }

  ghost predicate NoDuplicates(retrieved: seq<string>) {
    forall i, j | 0 <= i < j < |retrieved| :: retrieved[i] != retrieved[j]
  }

  ghost predicate AllRelevant(retrieved: seq<string>, relevant: set<string>, n: nat) {
    n <= |retrieved| && forall i | 0 <= i < n :: retrieved[i] in relevant
  }

  function HitSet(retrieved: seq<string>, relevant: set<string>, n: nat): set<string>
    requires n <= |retrieved|
  {
    set i | 0 <= i < n && retrieved[i] in relevant :: retrieved[i]
  }

  lemma {:induction false} HitsAreDistinct(retrieved: seq<string>, relevant: set<string>, n: nat)
    requires NoDuplicates(retrieved) && n <= |retrieved|
    ensures |HitSet(retrieved, relevant, n)| == Hits(retrieved, relevant, n)
  {
    if n > 0 {
      HitsAreDistinct(retrieved, relevant, n - 1);
      var before, last := HitSet(retrieved, relevant, n - 1), retrieved[n - 1];
      if last in relevant {
        assert HitSet(retrieved, relevant, n) == before + {last};
      } else {
        assert HitSet(retrieved, relevant, n) == before;
      }
    }
  }

  lemma {:induction false} SubsetSize(a: set<string>, b: set<string>)
    requires a <= b
    ensures |a| <= |b|
  {
    assert b == a + (b - a);
  }

  lemma HitsAtMostRelevant(retrieved: seq<string>, relevant: set<string>, n: nat)
    requires NoDuplicates(retrieved) && n <= |retrieved|
    ensures Hits(retrieved, relevant, n) <= |relevant|
  {
    HitsAreDistinct(retrieved, relevant, n);
    SubsetSize(HitSet(retrieved, relevant, n), relevant);
  }

  /** Moving the hits to the front can only raise the gain, and strictly so unless they are there. */
  lemma {:induction false} GainAtMostFront(weight: nat -> real, retrieved: seq<string>, relevant: set<string>, n: nat)
    requires Discount(weight) && n <= |retrieved|
    ensures var h := Hits(retrieved, relevant, n);
      && 0.0 <= Gain(weight, retrieved, relevant, n) <= Ideal(weight, h)
      && (Gain(weight, retrieved, relevant, n) == Ideal(weight, h) <==> AllRelevant(retrieved, relevant, h))
  {
    if n > 0 {
      GainAtMostFront(weight, retrieved, relevant, n - 1);
      var h := Hits(retrieved, relevant, n - 1);
      if retrieved[n - 1] in relevant {
        assert Ideal(weight, h + 1) == Ideal(weight, h) + weight(h);
        assert weight(n - 1) <= weight(h) && (h < n - 1 ==> weight(n - 1) < weight(h));
        if h < n - 1 && AllRelevant(retrieved, relevant, h + 1) {
          FrontHits(retrieved, relevant, h + 1, n - 1);
        }
      }
    }
  }

  lemma {:induction false} FrontHits(retrieved: seq<string>, relevant: set<string>, front: nat, n: nat)
    requires AllRelevant(retrieved, relevant, front) && front <= n <= |retrieved|
    ensures Hits(retrieved, relevant, n) >= front
  {
    if n > front {
      FrontHits(retrieved, relevant, front, n - 1);
    } else if front > 0 {
      FrontHits(retrieved, relevant, front - 1, n - 1);
    }
  }

  lemma {:induction false} IdealGrows(weight: nat -> real, m: nat, n: nat)
    requires Discount(weight) && m <= n
    ensures Ideal(weight, m) <= Ideal(weight, n)
    ensures m < n ==> Ideal(weight, m) < Ideal(weight, n)
  {
    if m < n {
      IdealGrows(weight, m, n - 1);
    }
  }

  lemma Quotient(d: real, i: real)
    requires 0.0 <= d <= i && i > 0.0
    ensures 0.0 <= d / i <= 1.0
    ensures d / i == 1.0 <==> d == i
  {
  }

  /** With no more hits than relevant files the score lies in [0, 1], whatever the discount. */
  lemma BoundedByHits(weight: nat -> real, retrieved: seq<string>, relevant: set<string>, k: nat)
    requires Discount(weight) && Hits(retrieved, relevant, Min(|retrieved|, k)) <= |relevant|
    ensures 0.0 <= Ndcg(weight, retrieved, relevant, k) <= 1.0
    ensures relevant != {} && k >= 1 ==>
      (Ndcg(weight, retrieved, relevant, k) == 1.0 <==> AllRelevant(retrieved, relevant, Min(|relevant|, k)))
  {
    var n, ideal := Min(|retrieved|, k), Min(|relevant|, k);
    var h := Hits(retrieved, relevant, n);
    GainAtMostFront(weight, retrieved, relevant, n);
    IdealGrows(weight, h, ideal);
    IdealGrows(weight, 0, ideal);
    if ideal > 0 {
      Quotient(Gain(weight, retrieved, relevant, n), Ideal(weight, ideal));
      if AllRelevant(retrieved, relevant, ideal) {
        FrontHits(retrieved, relevant, ideal, n);
      }
    }
    if relevant != {} && k >= 1 {
      assert |relevant| > 0;
    }
  }

  /** NDCG@K lies in [0, 1] for duplicate-free rankings, and is 1 exactly when the first
      `min(|relevant|, K)` results are all relevant. */
  lemma NdcgBound(weight: nat -> real, retrieved: seq<string>, relevant: set<string>, k: nat)
    requires Discount(weight) && NoDuplicates(retrieved)
    ensures 0.0 <= Ndcg(weight, retrieved, relevant, k) <= 1.0
    ensures relevant != {} && k >= 1 ==>
      (Ndcg(weight, retrieved, relevant, k) == 1.0 <==> AllRelevant(retrieved, relevant, Min(|relevant|, k)))
  {
    HitsAtMostRelevant(retrieved, relevant, Min(|retrieved|, k));
    BoundedByHits(weight, retrieved, relevant, k);
  }

  // ---- The exact condition ----

  function Half(i: nat): real {
    if i == 0 then 1.0 else Half(i - 1) / 2.0
  }

  lemma {:induction false} HalfFalls(i: nat, j: nat)
    requires i < j
    ensures 0.0 < Half(j) < Half(i) <= 1.0
    decreases j, i
  {
    if i + 1 < j {
      HalfFalls(i, j - 1);
    } else if i > 0 {
      HalfFalls(i - 1, i);
    }
  }

  /** A discount that hardly falls. */
  function Flat(c: nat): nat -> real {
    (i: nat) => c as real + Half(i)
  }

  lemma FlatIsDiscount(c: nat)
    ensures Discount(Flat(c))
  {
    forall i: nat, j: nat | i < j
      ensures Flat(c)(i) > Flat(c)(j) > 0.0
    {
      HalfFalls(i, j);
    }
    forall i: nat
      ensures Flat(c)(i) > 0.0
    {
      HalfFalls(i, i + 1);
    }
  }

  lemma {:induction false} FlatGain(c: nat, retrieved: seq<string>, relevant: set<string>, n: nat)
    requires n <= |retrieved|
    ensures Gain(Flat(c), retrieved, relevant, n) >= (Hits(retrieved, relevant, n) * c) as real
  {
    if n > 0 {
      FlatGain(c, retrieved, relevant, n - 1);
      HalfFalls(n - 1, n);
      var h := Hits(retrieved, relevant, n - 1);
      assert (h + 1) * c == h * c + c;
    }
  }

  lemma {:induction false} FlatIdeal(c: nat, m: nat)
    ensures 0.0 <= Ideal(Flat(c), m) <= (m * c + m) as real
    ensures m > 0 ==> Ideal(Flat(c), m) > 0.0
  {
    if m > 0 {
      FlatIdeal(c, m - 1);
      HalfFalls(m - 1, m);
      assert m * c == (m - 1) * c + c;
    }
  }

  lemma FlatExceedsOne(retrieved: seq<string>, relevant: set<string>, k: nat)
    requires Hits(retrieved, relevant, Min(|retrieved|, k)) > |relevant|
    ensures Ndcg(Flat(|relevant| + 1), retrieved, relevant, k) > 1.0
  {
    var n, m := Min(|retrieved|, k), |relevant|;
    var h := Hits(retrieved, relevant, n);
    SomeRelevant(retrieved, relevant, n);
    FlatGain(m + 1, retrieved, relevant, n);
    FlatIdeal(m + 1, m);
    OneHitMore(h, m);
    Excess(Gain(Flat(m + 1), retrieved, relevant, n), Ideal(Flat(m + 1), m));
  }

  lemma {:induction false} OneHitMore(h: nat, m: nat)
    requires h > m
    ensures h * (m + 1) > m * (m + 1) + m
  {
    assert h * (m + 1) == (h - 1) * (m + 1) + (m + 1);
    if h > m + 1 {
      OneHitMore(h - 1, m);
    }
  }

  lemma {:induction false} SomeRelevant(retrieved: seq<string>, relevant: set<string>, n: nat)
    requires n <= |retrieved| && Hits(retrieved, relevant, n) > 0
    ensures |relevant| > 0
  {
    if retrieved[n - 1] in relevant {
      SubsetSize({retrieved[n - 1]}, relevant);
    } else {
      SomeRelevant(retrieved, relevant, n - 1);
    }
  }

  /** The score stays at or below 1 for every discount if and only if the first `k` results hold no more
      hits, repeated ones counted again, than there are relevant files. */
  lemma AtMostOneIff(retrieved: seq<string>, relevant: set<string>, k: nat)
    ensures (forall weight: nat -> real | Discount(weight) :: Ndcg(weight, retrieved, relevant, k) <= 1.0)
       <==> Hits(retrieved, relevant, Min(|retrieved|, k)) <= |relevant|
  {
    if Hits(retrieved, relevant, Min(|retrieved|, k)) <= |relevant| {
      forall weight: nat -> real | Discount(weight)
        ensures Ndcg(weight, retrieved, relevant, k) <= 1.0
      {
        BoundedByHits(weight, retrieved, relevant, k);
      }
    } else {
      FlatIsDiscount(|relevant| + 1);
      FlatExceedsOne(retrieved, relevant, k);
    }
  }

  /** A repeated relevant result is paid twice, so more hits than relevant files can score
      above 1, whatever the discount. */
  lemma {:induction false} DuplicatesExceedOne(weight: nat -> real)
    requires Discount(weight)
    ensures Ndcg(weight, ["a", "a"], {"a"}, 2) > 1.0
  {
    var r, s := ["a", "a"], {"a"};
    assert Gain(weight, r, s, 1) == weight(0) && Gain(weight, r, s, 2) == weight(0) + weight(1);
    assert Ideal(weight, 1) == weight(0);
    assert |s| == 1;
    Excess(weight(0) + weight(1), weight(0));
  }

  lemma Excess(d: real, i: real)
    requires d > i > 0.0
    ensures d / i > 1.0
  {
  }

  // ---- How rankings compare ----

  /** Without relevant files, or without ranks, the score is 0. */
  lemma NothingToFind(weight: nat -> real, retrieved: seq<string>, relevant: set<string>, k: nat)
    requires relevant == {} || k == 0
    ensures Ndcg(weight, retrieved, relevant, k) == 0.0
  {
  }

  function Swapped(retrieved: seq<string>, i: nat, j: nat): seq<string>
    requires i < |retrieved| && j < |retrieved|
  {
    retrieved[i := retrieved[j]][j := retrieved[i]]
  }

  lemma {:induction false} GainOfSwap(weight: nat -> real, retrieved: seq<string>, relevant: set<string>, i: nat, j: nat, n: nat)
    requires i < j < |retrieved| && n <= |retrieved|
    requires retrieved[i] !in relevant && retrieved[j] in relevant
    ensures Gain(weight, Swapped(retrieved, i, j), relevant, n) - Gain(weight, retrieved, relevant, n)
         == (if n > i then weight(i) else 0.0) - (if n > j then weight(j) else 0.0)
  {
    if n > 0 {
      GainOfSwap(weight, retrieved, relevant, i, j, n - 1);
    }
  }

  /** Moving a relevant result up, in exchange for an irrelevant one, raises the score, whatever the discount. */
  lemma HigherIsBetter(weight: nat -> real, retrieved: seq<string>, relevant: set<string>, k: nat, i: nat, j: nat)
    requires Discount(weight) && i < j < Min(|retrieved|, k)
    requires retrieved[i] !in relevant && retrieved[j] in relevant
    ensures Ndcg(weight, Swapped(retrieved, i, j), relevant, k) > Ndcg(weight, retrieved, relevant, k)
  {
    var n, ideal := Min(|retrieved|, k), Ideal(weight, Min(|relevant|, k));
    GainOfSwap(weight, retrieved, relevant, i, j, n);
    SubsetSize({retrieved[j]}, relevant);
    IdealGrows(weight, 0, Min(|relevant|, k));
    Scaled(Gain(weight, retrieved, relevant, n), Gain(weight, Swapped(retrieved, i, j), relevant, n), ideal);
  }

  lemma Scaled(a: real, b: real, ideal: real)
    requires a < b && ideal > 0.0
    ensures a / ideal < b / ideal
  {
  }
}
