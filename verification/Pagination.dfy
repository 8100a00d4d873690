/** Paginated search over one fixed ranking, and the rerank permutation. */
module Pagination {
  import opened Wrappers

  datatype Row = Row(similarity: real, content: string)
  datatype RankedRow = RankedRow(rank: nat, row: Row)

  const USIZE_MAX: nat := 0xFFFF_FFFF_FFFF_FFFF

  /** The store answers every request with a prefix of its ranking. */
  function StoreSearch(ranking: seq<Row>, size: nat): seq<Row> {
    ranking[..Min(size, |ranking|)]
  }

  predicate Passes(minSimilarity: Option<real>, row: Row) {
    minSimilarity.Some? ==> row.similarity >= minSimilarity.value
  }

  /** What `retain` keeps. */
  function Passing(minSimilarity: Option<real>, rows: seq<Row>): (kept: seq<Row>)
    ensures |kept| <= |rows|
  {
    if rows == [] then []
    else (if Passes(minSimilarity, rows[0]) then [rows[0]] else []) + Passing(minSimilarity, rows[1..])
  }

  function Slice(rows: seq<Row>, offset: nat, topK: nat): seq<Row> {
    var skipped := if offset <= |rows| then rows[offset..] else [];
    skipped[..Min(topK, |skipped|)]
  }

  /** A page needs the first `offset + topK` results, a sum that saturates. */
  function Fetched(ranking: seq<Row>, topK: nat, offset: nat): seq<Row> {
    StoreSearch(ranking, Min(offset + topK, USIZE_MAX))
  }

  /** The page of a search without a reranker. */
  function Page(ranking: seq<Row>, minSimilarity: Option<real>, topK: nat, offset: nat): seq<Row> {
    Slice(Passing(minSimilarity, Fetched(ranking, topK, offset)), offset, topK)
  }

  function Ranked(rows: seq<Row>, offset: nat): (out: seq<RankedRow>)
    ensures |out| == |rows|
  {
    seq(|rows|, i requires 0 <= i < |rows| => RankedRow(offset + i + 1, rows[i]))
  }

  lemma {:induction false} NothingFiltered(rows: seq<Row>)
    ensures Passing(None, rows) == rows
  {
    if rows != [] {
      NothingFiltered(rows[1..]);
    }
  }

  // ---- Following the next-page hint ----

  /** The client asks for the next page as long as the last one was full. */
  ghost function FollowHints(ranking: seq<Row>, minSimilarity: Option<real>, topK: nat, offset: nat): seq<RankedRow>
    requires topK >= 1
    decreases |ranking| - offset
  {
    var page := Page(ranking, minSimilarity, topK, offset);
    if |page| == topK then
      Ranked(page, offset) + FollowHints(ranking, minSimilarity, topK, offset + topK)
    else
      Ranked(page, offset)
  }

  /** The results that pass come before all that do not. */
  ghost predicate PassingFirst(minSimilarity: Option<real>, ranking: seq<Row>) {
    forall i, j | 0 <= i < j < |ranking| && Passes(minSimilarity, ranking[j]) :: Passes(minSimilarity, ranking[i])
  }

  ghost predicate NonIncreasing(ranking: seq<Row>) {
    forall i, j | 0 <= i < j < |ranking| :: ranking[i].similarity >= ranking[j].similarity
  }

  lemma SortedMeansPassingFirst(minSimilarity: Option<real>, ranking: seq<Row>)
    requires NonIncreasing(ranking)
    ensures PassingFirst(minSimilarity, ranking)
  {
  }

  /** Then filtering a prefix is taking a prefix of what passes. */
  lemma {:induction false} FilteredPrefix(minSimilarity: Option<real>, ranking: seq<Row>, n: nat)
    requires PassingFirst(minSimilarity, ranking) && n <= |ranking|
    ensures var all := Passing(minSimilarity, ranking);
      Passing(minSimilarity, ranking[..n]) == all[..Min(n, |all|)]
  {
    if n > 0 {
      if Passes(minSimilarity, ranking[0]) {
        FilteredPrefix(minSimilarity, ranking[1..], n - 1);
        assert ranking[..n][1..] == ranking[1..][..n - 1];
      } else {
        NonePasses(minSimilarity, ranking);
        NonePasses(minSimilarity, ranking[..n]);
      }
    }
  }

  lemma {:induction false} NonePasses(minSimilarity: Option<real>, rows: seq<Row>)
    requires forall r | r in rows :: !Passes(minSimilarity, r)
    ensures Passing(minSimilarity, rows) == []
  {
    if rows != [] {
      NonePasses(minSimilarity, rows[1..]);
    }
  }

  lemma PageIsSlice(ranking: seq<Row>, minSimilarity: Option<real>, topK: nat, offset: nat)
    requires PassingFirst(minSimilarity, ranking) && |ranking| <= USIZE_MAX
    ensures Page(ranking, minSimilarity, topK, offset) == Slice(Passing(minSimilarity, ranking), offset, topK)
  {
    var n := Min(Min(offset + topK, USIZE_MAX), |ranking|);
    FilteredPrefix(minSimilarity, ranking, n);
    SliceOfPrefix(Passing(minSimilarity, ranking), n, offset, topK);
  }

  lemma SliceOfPrefix(all: seq<Row>, n: nat, offset: nat, topK: nat)
    requires n >= offset + topK || n >= |all|
    ensures Slice(all[..Min(n, |all|)], offset, topK) == Slice(all, offset, topK)
  {
  }

  lemma {:induction false} PagesFrom(ranking: seq<Row>, minSimilarity: Option<real>, topK: nat, offset: nat)
    requires topK >= 1 && PassingFirst(minSimilarity, ranking) && |ranking| <= USIZE_MAX
    requires offset <= |Passing(minSimilarity, ranking)|
    ensures FollowHints(ranking, minSimilarity, topK, offset) == Ranked(Passing(minSimilarity, ranking)[offset..], offset)
    decreases |ranking| - offset
  {
    var all := Passing(minSimilarity, ranking);
    var end := Min(offset + topK, |all|);
    PageIsSlice(ranking, minSimilarity, topK, offset);
    SliceIs(all, offset, topK);
    FollowOne(ranking, minSimilarity, topK, offset, all[offset..end]);
    if end == offset + topK {
      PagesFrom(ranking, minSimilarity, topK, end);
      RankedSplit(all, offset, end);
    } else {
      assert all[offset..end] == all[offset..];
    }
  }

  lemma SliceIs(all: seq<Row>, offset: nat, topK: nat)
    requires offset <= |all|
    ensures Slice(all, offset, topK) == all[offset..Min(offset + topK, |all|)]
  {
  }

  lemma FollowOne(ranking: seq<Row>, minSimilarity: Option<real>, topK: nat, offset: nat, page: seq<Row>)
    requires topK >= 1 && page == Page(ranking, minSimilarity, topK, offset)
    ensures FollowHints(ranking, minSimilarity, topK, offset)
         == Ranked(page, offset)
          + if |page| == topK then FollowHints(ranking, minSimilarity, topK, offset + topK) else []
  {
  }

  lemma RankedSplit(all: seq<Row>, from: nat, mid: nat)
    requires from <= mid <= |all|
    ensures Ranked(all[from..], from) == Ranked(all[from..mid], from) + Ranked(all[mid..], mid)
  {
    assert all[from..] == all[from..mid] + all[mid..];
    RankedAppend(all[from..mid], all[mid..], from);
  }

  lemma RankedAppend(a: seq<Row>, b: seq<Row>, offset: nat)
    ensures Ranked(a + b, offset) == Ranked(a, offset) + Ranked(b, offset + |a|)
  {
  }

  /** Following the hints gives every passing result once, in order, with consecutive ranks. */
  ghost predicate Tiled(ranking: seq<Row>, minSimilarity: Option<real>, topK: nat)
    requires topK >= 1
  {
    FollowHints(ranking, minSimilarity, topK, 0) == Ranked(Passing(minSimilarity, ranking), 0)
  }

  /** The pages tile the ranking for every page size if and only if the passing results come first. */
  lemma TiledIffPassingFirst(ranking: seq<Row>, minSimilarity: Option<real>)
    requires |ranking| <= USIZE_MAX
    ensures (forall topK: nat | topK >= 1 :: Tiled(ranking, minSimilarity, topK)) <==> PassingFirst(minSimilarity, ranking)
  {
    if PassingFirst(minSimilarity, ranking) {
      forall topK: nat | topK >= 1
        ensures Tiled(ranking, minSimilarity, topK)
      {
        PagesFrom(ranking, minSimilarity, topK, 0);
      }
    } else {
      var gap := FirstGap(ranking, minSimilarity);
      StopsAtGap(ranking, minSimilarity, gap, 0);
      AllPass(minSimilarity, ranking[..gap]);
      assert !Tiled(ranking, minSimilarity, 1);
    }
  }

  /** In particular for a store that answers in non-increasing similarity. */
  lemma PagesTileSortedRanking(ranking: seq<Row>, minSimilarity: Option<real>, topK: nat)
    requires NonIncreasing(ranking) && |ranking| <= USIZE_MAX && topK >= 1
    ensures FollowHints(ranking, minSimilarity, topK, 0) == Ranked(Passing(minSimilarity, ranking), 0)
  {
    SortedMeansPassingFirst(minSimilarity, ranking);
    TiledIffPassingFirst(ranking, minSimilarity);
    assert Tiled(ranking, minSimilarity, topK);
  }

  lemma {:induction false} AllPass(minSimilarity: Option<real>, rows: seq<Row>)
    requires forall r | r in rows :: Passes(minSimilarity, r)
    ensures Passing(minSimilarity, rows) == rows
  {
    if rows != [] {
      AllPass(minSimilarity, rows[1..]);
    }
  }

  lemma {:induction false} FirstGap(ranking: seq<Row>, minSimilarity: Option<real>) returns (gap: nat)
    requires !PassingFirst(minSimilarity, ranking)
    ensures gap < |ranking| && !Passes(minSimilarity, ranking[gap])
    ensures forall i | 0 <= i < gap :: Passes(minSimilarity, ranking[i])
    ensures |Passing(minSimilarity, ranking)| > gap
  {
    if !Passes(minSimilarity, ranking[0]) {
      gap := 0;
      var i, j :| 0 <= i < j < |ranking| && Passes(minSimilarity, ranking[j]) && !Passes(minSimilarity, ranking[i]);
      SomePasses(minSimilarity, ranking, j);
    } else {
      var rest := ranking[1..];
      var i, j :| 0 <= i < j < |ranking| && Passes(minSimilarity, ranking[j]) && !Passes(minSimilarity, ranking[i]);
      assert rest[j - 1] == ranking[j] && rest[i - 1] == ranking[i];
      var g := FirstGap(rest, minSimilarity);
      gap := g + 1;
    }
  }

  lemma {:induction false} SomePasses(minSimilarity: Option<real>, rows: seq<Row>, j: nat)
    requires j < |rows| && Passes(minSimilarity, rows[j])
    ensures |Passing(minSimilarity, rows)| > 0
  {
    if j > 0 {
      SomePasses(minSimilarity, rows[1..], j - 1);
    }
  }

  lemma PassingHead(minSimilarity: Option<real>, head: Row, tail: seq<Row>)
    ensures Passing(minSimilarity, [head] + tail) == Passing(minSimilarity, [head]) + Passing(minSimilarity, tail)
  {
    assert ([head] + tail)[1..] == tail && [head][1..] == [];
  }

  lemma {:induction false} PassingAppend(minSimilarity: Option<real>, a: seq<Row>, b: seq<Row>)
    ensures Passing(minSimilarity, a + b) == Passing(minSimilarity, a) + Passing(minSimilarity, b)
    decreases a, 0
  {
    if a == [] {
      assert a + b == b;
    } else {
      var head, tail := a[0], a[1..];
      assert a == [head] + tail && a + b == [head] + (tail + b);
      PassingAppendTail(minSimilarity, head, tail, b);
    }
  }

  lemma {:induction false} PassingAppendTail(minSimilarity: Option<real>, head: Row, tail: seq<Row>, b: seq<Row>)
    ensures Passing(minSimilarity, [head] + (tail + b)) == Passing(minSimilarity, [head] + tail) + Passing(minSimilarity, b)
    decreases tail, 1
  {
    PassingHead(minSimilarity, head, tail + b);
    PassingHead(minSimilarity, head, tail);
    PassingAppend(minSimilarity, tail, b);
  }

  /** Page by page of one result, the client stops at the first result that does not pass. */
  lemma {:induction false} StopsAtGap(ranking: seq<Row>, minSimilarity: Option<real>, gap: nat, offset: nat)
    requires gap < |ranking| <= USIZE_MAX && !Passes(minSimilarity, ranking[gap])
    requires forall i | 0 <= i < gap :: Passes(minSimilarity, ranking[i])
    requires offset <= gap
    ensures |FollowHints(ranking, minSimilarity, 1, offset)| == gap - offset
    decreases gap - offset
  {
    var found := ranking[..offset + 1];
    assert StoreSearch(ranking, offset + 1) == found;
    assert found == ranking[..offset] + [ranking[offset]];
    PassingAppend(minSimilarity, ranking[..offset], [ranking[offset]]);
    AllPass(minSimilarity, ranking[..offset]);
    assert Passing(minSimilarity, [ranking[offset]])
        == if Passes(minSimilarity, ranking[offset]) then [ranking[offset]] else [];
    if offset < gap {
      StopsAtGap(ranking, minSimilarity, gap, offset + 1);
    }
  }

  // ---- Reranking ----

  /** Every index below `n` exactly once. */
  ghost predicate IsPermutation(order: seq<nat>, n: nat) {
    && |order| == n
    && (forall i | 0 <= i < n :: order[i] < n)
    && (forall i, j | 0 <= i < j < n :: order[i] != order[j])
    && (forall k | 0 <= k < n :: k in order)
  }

  ghost predicate DescendingScores(order: seq<nat>, scores: seq<real>) {
    && (forall i | 0 <= i < |order| :: order[i] < |scores|)
    && (forall i, j | 0 <= i < j < |order| :: scores[order[i]] >= scores[order[j]])
  }

  /** The sort by descending score; ties may come out in any order. */
  method SortByScore(scores: seq<real>) returns (order: seq<nat>)
    ensures IsPermutation(order, |scores|) && DescendingScores(order, scores)
  {
    order := [];
    for n := 0 to |scores|
      invariant IsPermutation(order, n) && DescendingScores(order, scores)
    {
      var at := 0;
      while at < |order| && scores[order[at]] >= scores[n]
        invariant at <= |order|
        invariant forall i | 0 <= i < at :: scores[order[i]] >= scores[n]
      {
        at := at + 1;
      }
      InsertKeepsPermutation(order, at);
      InsertKeepsDescending(order, scores, at, n);
      order := Insert(order, at, n);
    }
  }

  function Insert(order: seq<nat>, at: nat, n: nat): seq<nat>
    requires at <= |order|
  {
    order[..at] + [n] + order[at..]
  }

  lemma InsertKeepsPermutation(order: seq<nat>, at: nat)
    requires at <= |order| && IsPermutation(order, |order|)
    ensures IsPermutation(Insert(order, at, |order|), |order| + 1)
  {
    var inserted := Insert(order, at, |order|);
    forall k | 0 <= k < |order| + 1
      ensures k in inserted
    {
      if k == |order| {
        assert inserted[at] == k;
      } else {
        assert k in order;
        var i :| 0 <= i < |order| && order[i] == k;
        assert inserted[if i < at then i else i + 1] == k;
      }
    }
  }

  lemma InsertKeepsDescending(order: seq<nat>, scores: seq<real>, at: nat, n: nat)
    requires at <= |order| && n < |scores| && DescendingScores(order, scores)
    requires forall i | 0 <= i < at :: scores[order[i]] >= scores[n]
    requires at < |order| ==> scores[order[at]] <= scores[n]
    ensures DescendingScores(Insert(order, at, n), scores)
  {
    var inserted := Insert(order, at, n);
    forall i, j | 0 <= i < j < |inserted|
      ensures inserted[i] < |scores| && inserted[j] < |scores| && scores[inserted[i]] >= scores[inserted[j]]
    {
      assert i < at ==> inserted[i] == order[i];
      assert i > at ==> inserted[i] == order[i - 1];
      assert j < at ==> inserted[j] == order[j];
      assert j > at ==> inserted[j] == order[j - 1];
    }
  }

  function Taken(results: seq<Row>, order: seq<nat>): (rows: seq<Row>)
    requires IsPermutation(order, |results|)
    ensures |rows| == |results|
  {
    seq(|order|, i requires 0 <= i < |order| => results[order[i]])
  }

  /** Moving the results out of their slots in score order; no slot is ever found empty. */
  method TakeInOrder(results: seq<Row>, order: seq<nat>) returns (out: seq<Row>)
    requires IsPermutation(order, |results|)
    ensures out == Taken(results, order)
  {
    var slots: seq<Option<Row>> := seq(|results|, i requires 0 <= i < |results| => Some(results[i]));
    out := [];
    for n := 0 to |order|
      invariant |out| == n && |slots| == |results|
      invariant forall i | 0 <= i < n :: out[i] == results[order[i]]
      invariant forall i | n <= i < |order| :: slots[order[i]] == Some(results[order[i]])
    {
      var i := order[n];
      var taken := slots[i];
      slots := slots[i := None];
      out := out + [taken.value];
    }
  }

  /** The reranked results are a permutation by descending score. */
  method Rerank(results: seq<Row>, scores: seq<real>) returns (out: seq<Row>, order: seq<nat>)
    requires |scores| == |results|
    ensures IsPermutation(order, |results|) && DescendingScores(order, scores)
    ensures out == Taken(results, order)
  {
    order := SortByScore(scores);
    out := TakeInOrder(results, order);
  }

  /** A search, with the scores of a reranker for the fetched results if there is one. `order` says
      where each result stood in the store's ranking before filtering and slicing. */
  method RunSearch(ranking: seq<Row>, scores: Option<seq<real>>, minSimilarity: Option<real>, topK: nat, offset: nat)
    returns (rows: seq<RankedRow>, order: seq<nat>)
    requires scores.Some? ==> |scores.value| == |Fetched(ranking, topK, offset)|
    ensures IsPermutation(order, |Fetched(ranking, topK, offset)|)
    ensures scores.Some? ==> DescendingScores(order, scores.value)
    ensures scores.None? ==> rows == Ranked(Page(ranking, minSimilarity, topK, offset), offset)
    ensures rows == Ranked(RerankedPage(ranking, minSimilarity, topK, offset, order), offset)
  {
    var searchSize := if offset + topK <= USIZE_MAX then offset + topK else USIZE_MAX;
    var results := StoreSearch(ranking, searchSize);
    if scores.Some? {
      results, order := Rerank(results, scores.value);
    } else {
      order := seq(|results|, i requires 0 <= i < |results| => i);
      AsTheyStand(results, order);
    }
    rows := PageOf(results, minSimilarity, topK, offset);
  }

  /** Filter, skip, truncate and number. */
  method PageOf(results0: seq<Row>, minSimilarity: Option<real>, topK: nat, offset: nat) returns (rows: seq<RankedRow>)
    ensures rows == Ranked(Slice(Passing(minSimilarity, results0), offset, topK), offset)
  {
    var results := results0;
    if minSimilarity.Some? {
      results := Passing(minSimilarity, results);
    } else {
      NothingFiltered(results);
    }
    if offset > 0 {
      results := if offset <= |results| then results[offset..] else [];
    }
    if |results| > topK {
      results := results[..topK];
    }
    rows := Ranked(results, offset);
  }

  lemma AsTheyStand(results: seq<Row>, order: seq<nat>)
    requires |order| == |results| && forall i | 0 <= i < |order| :: order[i] == i
    ensures IsPermutation(order, |results|) && Taken(results, order) == results
  {
    forall k | 0 <= k < |results|
      ensures k in order
    {
      assert order[k] == k;
    }
  }

  // ---- Following the hints with a reranker ----

  /** An order in which a page may come out that fetches the first `n` results: the sort is unstable, so
      equal scores may come in any order. Every passage has its own score, whatever is fetched with it. */
  ghost predicate Permitted(order: seq<nat>, scores: seq<real>, n: nat) {
    n <= |scores| && IsPermutation(order, n) && DescendingScores(order, scores[..n])
  }

  ghost predicate StrictlyFalling(scores: seq<real>) {
    forall i, j | 0 <= i < j < |scores| :: scores[i] > scores[j]
  }

  /** The page of a search whose fetched results a reranker puts into this order. */
  function RerankedPage(ranking: seq<Row>, minSimilarity: Option<real>, topK: nat, offset: nat, order: seq<nat>): seq<Row>
    requires IsPermutation(order, |Fetched(ranking, topK, offset)|)
  {
    Slice(Passing(minSimilarity, Taken(Fetched(ranking, topK, offset), order)), offset, topK)
  }

  /** The page of one result at offset `p` may be this result. */
  ghost predicate MayShow(ranking: seq<Row>, scores: seq<real>, p: nat, order: seq<nat>, row: Row) {
    && Permitted(order, scores, |Fetched(ranking, 1, p)|)
    && RerankedPage(ranking, None, 1, p, order) == [row]
  }

  /** Two pages of one result may show the same one. */
  ghost predicate PagesMayRepeat(ranking: seq<Row>, scores: seq<real>) {
    exists p: nat, q: nat, a, b, row :: p < q && MayShow(ranking, scores, p, a, row) && MayShow(ranking, scores, q, b, row)
  }

  lemma {:induction false} RisingAtLeast(order: seq<nat>, k: nat)
    requires k < |order| && forall i, j | 0 <= i < j < |order| :: order[i] < order[j]
    ensures order[k] >= k
  {
    if k > 0 {
      RisingAtLeast(order, k - 1);
    }
  }

  lemma {:induction false} RisingAtMost(order: seq<nat>, k: nat)
    requires k < |order| && forall i, j | 0 <= i < j < |order| :: order[i] < order[j]
    requires forall i | 0 <= i < |order| :: order[i] < |order|
    ensures order[k] <= k
    decreases |order| - k
  {
    if k + 1 < |order| {
      RisingAtMost(order, k + 1);
    }
  }

  /** A ranking the reranker agrees with can only come out as it stands. */
  lemma AgreedOrder(order: seq<nat>, scores: seq<real>, n: nat)
    requires Permitted(order, scores, n) && StrictlyFalling(scores[..n])
    ensures forall k | 0 <= k < n :: order[k] == k
  {
    var fetched := scores[..n];
    forall i, j | 0 <= i < j < n
      ensures order[i] < order[j]
    {
      assert order[i] != order[j];
      assert fetched[order[i]] >= fetched[order[j]];
    }
    forall k | 0 <= k < n
      ensures order[k] == k
    {
      RisingAtLeast(order, k);
      RisingAtMost(order, k);
    }
  }

  function Identity(n: nat): (order: seq<nat>)
    ensures |order| == n && forall k | 0 <= k < n :: order[k] == k
  {
    seq(n, k requires 0 <= k < n => k)
  }

  lemma IdentityPermitted(scores: seq<real>, n: nat)
    requires n <= |scores| && StrictlyFalling(scores[..n])
    ensures Permitted(Identity(n), scores, n)
  {
    var order := Identity(n);
    forall k | 0 <= k < n
      ensures k in order
    {
      assert order[k] == k;
    }
  }

  /** Where a result with this score goes among falling ones, in front of the first that does not score higher. */
  lemma {:induction false} PlaceOf(scores: seq<real>, n: nat, score: real) returns (at: nat)
    requires 0 < n <= |scores| && scores[n - 1] <= score && StrictlyFalling(scores[..n])
    ensures at < n && scores[at] <= score && forall i | 0 <= i < at :: scores[i] >= score
  {
    if n > 1 && scores[n - 2] <= score {
      assert scores[..n - 1] == scores[..n][..n - 1];
      at := PlaceOf(scores, n - 1, score);
    } else {
      at := n - 1;
      forall i | 0 <= i < at
        ensures scores[i] >= score
      {
        assert i < n - 2 ==> scores[..n][i] > scores[..n][n - 2];
      }
    }
  }

  /** The scores first fail to fall at `n`: the page before shows result `n - 1`, and so may the page at `n`. */
  lemma ShownTwice(scores: seq<real>, n: nat) returns (a: seq<nat>, b: seq<nat>)
    requires 0 < n < |scores| && StrictlyFalling(scores[..n]) && scores[n] >= scores[n - 1]
    ensures Permitted(a, scores, n) && Permitted(b, scores, n + 1) && a[n - 1] == b[n] == n - 1
  {
    a := Identity(n);
    IdentityPermitted(scores, n);
    var at := PlaceOf(scores, n, scores[n]);
    var fetched := scores[..n + 1];
    assert fetched[..n] == scores[..n];
    assert DescendingScores(a, fetched) by {
      assert DescendingScores(a, scores[..n]);
    }
    InsertKeepsPermutation(a, at);
    InsertKeepsDescending(a, fetched, at, n);
    b := Insert(a, at, n);
  }

  lemma {:induction false} FirstRise(scores: seq<real>) returns (n: nat)
    requires !StrictlyFalling(scores)
    ensures 0 < n < |scores| && StrictlyFalling(scores[..n]) && scores[n] >= scores[n - 1]
  {
    var last := |scores| - 1;
    if StrictlyFalling(scores[..last]) {
      n := last;
    } else {
      n := FirstRise(scores[..last]);
      assert scores[..last][..n] == scores[..n];
    }
  }

  /** The page of one result shows the last of the fetched results in the reranked order. */
  lemma PageOfOne(ranking: seq<Row>, scores: seq<real>, p: nat, order: seq<nat>)
    requires |scores| == |ranking| && p < |ranking| <= USIZE_MAX && Permitted(order, scores, p + 1)
    ensures |Fetched(ranking, 1, p)| == p + 1 && MayShow(ranking, scores, p, order, ranking[order[p]])
  {
    var rows := Taken(Fetched(ranking, 1, p), order);
    NothingFiltered(rows);
    assert rows[p] == ranking[order[p]];
    SliceIs(rows, p, 1);
    assert rows[p..p + 1] == [rows[p]];
  }

  /** Behind the last result pages are empty. */
  lemma ShowsWithin(ranking: seq<Row>, scores: seq<real>, p: nat, order: seq<nat>, row: Row)
    requires |scores| == |ranking| <= USIZE_MAX && MayShow(ranking, scores, p, order, row)
    ensures p < |ranking| && Permitted(order, scores, p + 1) && row == ranking[order[p]]
  {
    NothingFiltered(Taken(Fetched(ranking, 1, p), order));
    if p < |ranking| {
      PageOfOne(ranking, scores, p, order);
    }
  }

  /** With a reranker, two pages of one result may show the same result if and only if the scores do not
      strictly fall along the store's ranking. */
  lemma PagesRepeatUnlessFalling(ranking: seq<Row>, scores: seq<real>)
    requires |scores| == |ranking| <= USIZE_MAX
    requires forall i, j | 0 <= i < j < |ranking| :: ranking[i] != ranking[j]
    ensures PagesMayRepeat(ranking, scores) <==> !StrictlyFalling(scores)
  {
    if StrictlyFalling(scores) {
      forall p: nat, q: nat, a, b, row | p < q && MayShow(ranking, scores, p, a, row)
        ensures !MayShow(ranking, scores, q, b, row)
      {
        if MayShow(ranking, scores, q, b, row) {
          ShowsWithin(ranking, scores, p, a, row);
          ShowsWithin(ranking, scores, q, b, row);
          AgreedOrder(a, scores, p + 1);
          AgreedOrder(b, scores, q + 1);
        }
      }
    } else {
      var n := FirstRise(scores);
      var a, b := ShownTwice(scores, n);
      PageOfOne(ranking, scores, n - 1, a);
      PageOfOne(ranking, scores, n, b);
    }
  }

  /** With strictly falling scores every page is the page without a reranker, so that the pages tile as they
      do without one. */
  lemma FallingScoresChangeNothing(ranking: seq<Row>, scores: seq<real>, minSimilarity: Option<real>,
                                   topK: nat, offset: nat, order: seq<nat>)
    requires |scores| == |ranking| && StrictlyFalling(scores)
    requires Permitted(order, scores, |Fetched(ranking, topK, offset)|)
    ensures RerankedPage(ranking, minSimilarity, topK, offset, order)
         == Page(ranking, minSimilarity, topK, offset)
  {
    var fetched := Fetched(ranking, topK, offset);
    AgreedOrder(order, scores, |fetched|);
    AsTheyStand(fetched, order);
  }

  // ---- What the pages show, rank by rank ----

  /** How many results come before the first that is below the threshold; one that reaches it is shown. */
  function Reaching(minSimilarity: Option<real>, ranking: seq<Row>): (n: nat)
    ensures n <= |ranking|
    ensures forall i | 0 <= i < n :: minSimilarity.Some? ==> ranking[i].similarity >= minSimilarity.value
    ensures n < |ranking| ==> minSimilarity.Some? && ranking[n].similarity < minSimilarity.value
  {
    if ranking == [] || (minSimilarity.Some? && ranking[0].similarity < minSimilarity.value) then 0
    else 1 + Reaching(minSimilarity, ranking[1..])
  }

  lemma {:induction false} PassingIsPrefix(minSimilarity: Option<real>, ranking: seq<Row>)
    requires PassingFirst(minSimilarity, ranking)
    ensures Passing(minSimilarity, ranking) == ranking[..Reaching(minSimilarity, ranking)]
  {
    if ranking != [] {
      if Passes(minSimilarity, ranking[0]) {
        PassingIsPrefix(minSimilarity, ranking[1..]);
        FirstOfPrefix(ranking, Reaching(minSimilarity, ranking[1..]));
      } else {
        NonePasses(minSimilarity, ranking);
      }
    }
  }

  lemma FirstOfPrefix(ranking: seq<Row>, n: nat)
    requires n < |ranking|
    ensures [ranking[0]] + ranking[1..][..n] == ranking[..n + 1]
  {
  }

  /** Over a sorted ranking the pages show exactly the results that reach the threshold, the one at place `i` of
      the ranking with rank `i + 1`. */
  lemma PagesShowRanks(ranking: seq<Row>, minSimilarity: Option<real>, topK: nat)
    requires NonIncreasing(ranking) && |ranking| <= USIZE_MAX && topK >= 1
    ensures var shown := FollowHints(ranking, minSimilarity, topK, 0);
      && |shown| == Reaching(minSimilarity, ranking)
      && (forall i | 0 <= i < |shown| :: shown[i] == RankedRow(i + 1, ranking[i]))
      && (forall i | 0 <= i < |ranking| ::
            i < |shown| <==> (minSimilarity.None? || ranking[i].similarity >= minSimilarity.value))
  {
    PagesTileSortedRanking(ranking, minSimilarity, topK);
    SortedMeansPassingFirst(minSimilarity, ranking);
    PassingIsPrefix(minSimilarity, ranking);
  }
}
