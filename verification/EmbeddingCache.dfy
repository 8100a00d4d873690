/** The embedding cache (exact strategy, in memory) and the embedder that uses it. */
module EmbeddingCache {
  import opened Wrappers

  type Embedding = seq<real>

  /** A printed hash, never the empty string. */
  type Key = k: string | k != [] witness "0"

  /** The entries of a JavaScript `Map`, oldest first. */
  type Lru = seq<(Key, Embedding)>

  predicate DistinctKeys(lru: Lru) {
    forall i, j | 0 <= i < j < |lru| :: lru[i].0 != lru[j].0
  }

  function Find(lru: Lru, key: Key): Option<Embedding> {
    if lru == [] then None
    else if lru[0].0 == key then Some(lru[0].1)
    else Find(lru[1..], key)
  }

  function Delete(lru: Lru, key: Key): Lru {
    if lru == [] then []
    else if lru[0].0 == key then Delete(lru[1..], key)
    else [lru[0]] + Delete(lru[1..], key)
  }

  /** A hit is stored under the key; on a miss nothing is. */
  predicate IsEntry(lru: Lru, key: Key, found: Option<Embedding>) {
    if found.Some? then (key, found.value) in lru else forall e | e in lru :: e.0 != key
  }

  lemma {:induction false} FindFacts(lru: Lru, key: Key)
    ensures IsEntry(lru, key, Find(lru, key))
  {
    if lru != [] && lru[0].0 != key {
      FindFacts(lru[1..], key);
    }
  }

  lemma {:induction false} DeleteFacts(lru: Lru, key: Key)
    ensures forall e :: e in Delete(lru, key) <==> e in lru && e.0 != key
    ensures |Delete(lru, key)| <= |lru|
    ensures DistinctKeys(lru) ==> DistinctKeys(Delete(lru, key))
  {
    if lru != [] {
      DeleteFacts(lru[1..], key);
      assert lru == [lru[0]] + lru[1..];
    }
  }

  /** How many entries of this size fit into the byte budget. */
  function Limit(budget: nat, key: Key, embedding: Embedding): nat {
    Quotient(budget, |embedding| * 4 + |key| * 2)
  }

  function Quotient(total: nat, size: nat): nat
    requires size > 0
  {
    total / size
  }

  /** Evict the oldest entry when at the limit, then append the new one at the end. */
  function Put(lru: Lru, budget: nat, key: Key, embedding: Embedding): Lru {
    var kept := if |lru| >= Limit(budget, key, embedding) && lru != [] then Delete(lru, lru[0].0) else lru;
    Delete(kept, key) + [(key, embedding)]
  }

  lemma PutFacts(lru: Lru, budget: nat, key: Key, embedding: Embedding)
    ensures forall e | e in Put(lru, budget, key, embedding) :: e == (key, embedding) || (e in lru && e.0 != key)
  {
    var kept := if |lru| >= Limit(budget, key, embedding) && lru != [] then Delete(lru, lru[0].0) else lru;
    if lru != [] {
      DeleteFacts(lru, lru[0].0);
    }
    DeleteFacts(kept, key);
  }

  class SemanticCache {
    const budget: nat
    const hash: string -> Key
    var lru: Lru

    constructor (budget: nat, hash: string -> Key)
      ensures this.budget == budget && this.hash == hash && lru == []
    {
      this.budget, this.hash, lru := budget, hash, [];
    }

    method Get(text: string) returns (hit: Option<Embedding>)
      ensures hit == Find(lru, hash(text))
      ensures IsEntry(lru, hash(text), hit)
    {
      var key := hash(text);
      hit := Find(lru, key);
      FindFacts(lru, key);
    }

    method Set(text: string, embedding: Embedding)
      modifies this
      ensures lru == Put(old(lru), budget, hash(text), embedding)
    {
      LruPut(hash(text), embedding);
    }

    method LruPut(key: Key, embedding: Embedding)
      modifies this
      ensures lru == Put(old(lru), budget, key, embedding)
    {
      var maxEntries := Quotient(budget, |embedding| * 4 + |key| * 2);
      if |lru| >= maxEntries {
        if |lru| > 0 {
          lru := Delete(lru, lru[0].0);
        }
      }
      lru := Delete(lru, key);
      lru := lru + [(key, embedding)];
    }
  }

  // ---- The embedder ----

  /** What the cache holds after one call, and after a batch: all lookups come first, then every
      miss is stored in turn. */
  function AfterEmbed(c: Settings, lru: Lru, text: string): Lru {
    if Find(lru, c.hash(text)).Some? then lru else Put(lru, c.budget, c.hash(text), c.direct(text))
  }

  function AnswerEmbed(c: Settings, lru: Lru, text: string): Embedding {
    var hit := Find(lru, c.hash(text));
    if hit.Some? then hit.value else c.direct(text)
  }

  function PutAll(c: Settings, lru: Lru, texts: seq<string>): Lru
    decreases |texts|
  {
    if texts == [] then lru
    else PutAll(c, Put(lru, c.budget, c.hash(texts[0]), c.direct(texts[0])), texts[1..])
  }

  function Misses(c: Settings, lru: Lru, texts: seq<string>): seq<string> {
    if texts == [] then []
    else (if Find(lru, c.hash(texts[0])).None? then [texts[0]] else []) + Misses(c, lru, texts[1..])
  }

  function AnswerBatch(c: Settings, lru: Lru, texts: seq<string>): (answers: seq<Embedding>)
    ensures |answers| == |texts|
  {
    seq(|texts|, i requires 0 <= i < |texts| => AnswerEmbed(c, lru, texts[i]))
  }

  /** The byte budget, the key function and the (deterministic) provider. */
  datatype Settings = Settings(budget: nat, hash: string -> Key, direct: string -> Embedding)

  class Embedder {
    const cache: SemanticCache
    const direct: string -> Embedding

    constructor (c: Settings)
      ensures View() == c && cache.lru == [] && fresh(cache)
    {
      cache := new SemanticCache(c.budget, c.hash);
      direct := c.direct;
    }

    function View(): Settings {
      Settings(cache.budget, cache.hash, direct)
    }

    method Embed(text: string) returns (embedding: Embedding)
      modifies cache
      ensures embedding == AnswerEmbed(View(), old(cache.lru), text)
      ensures cache.lru == AfterEmbed(View(), old(cache.lru), text)
    {
      var hit := cache.Get(text);
      if hit.Some? {
        return hit.value;
      }
      embedding := direct(text);
      cache.Set(text, embedding);
    }

    /** The lookups of a batch, none of which changes the cache, and the indices of the misses. */
    method LookUpAll(texts: seq<string>) returns (found: seq<Option<Embedding>>, missIndices: seq<nat>)
      ensures |found| == |texts| && AreLookups(View(), cache.lru, texts, found)
      ensures AreMisses(found, missIndices)
      ensures Texts(texts, missIndices) == Misses(View(), cache.lru, texts)
    {
      found, missIndices := [], [];
      assert texts[0..] == texts;
      for i := 0 to |texts|
        invariant |found| == i && LookedUp(View(), cache.lru, texts, found, missIndices)
      {
        LookUpStep(View(), cache.lru, texts, found, missIndices);
        var hit := cache.Get(texts[i]);
        found := found + [hit];
        if hit.None? {
          missIndices := missIndices + [i];
        }
      }
      assert texts[|texts|..] == [];
    }

    /** Storing the batch of misses, one after the other, and scattering them into the results. */
    method Scatter(hits: seq<Option<Embedding>>, texts: seq<string>, missIndices: seq<nat>)
      returns (found: seq<Option<Embedding>>)
      requires |hits| == |texts|
      requires AreMisses(hits, missIndices)
      modifies cache
      ensures |found| == |texts|
      ensures forall i | 0 <= i < |texts| :: found[i] == if hits[i].Some? then hits[i] else Some(direct(texts[i]))
      ensures cache.lru == PutAll(View(), old(cache.lru), Texts(texts, missIndices))
    {
      found := hits;
      var missTexts := Texts(texts, missIndices);
      var missEmbeddings := seq(|missTexts|, k requires 0 <= k < |missTexts| => direct(missTexts[k]));
      assert missTexts[0..] == missTexts;
      for k := 0 to |missIndices|
        invariant |found| == |texts|
        invariant forall i | 0 <= i < |texts| :: found[i] == hits[i] || (hits[i].None? && found[i] == Some(direct(texts[i])))
        invariant forall j | 0 <= j < k :: found[missIndices[j]].Some?
        invariant PutAll(View(), cache.lru, missTexts[k..]) == PutAll(View(), old(cache.lru), missTexts)
      {
        assert missTexts[k..][0] == missTexts[k] && missTexts[k..][1..] == missTexts[k + 1..];
        found := found[missIndices[k] := Some(missEmbeddings[k])];
        cache.Set(missTexts[k], missEmbeddings[k]);
      }
      assert missTexts[|missIndices|..] == [];
    }

    method EmbedBatch(texts: seq<string>) returns (results: seq<Embedding>)
      modifies cache
      ensures results == AnswerBatch(View(), old(cache.lru), texts)
      ensures cache.lru == PutAll(View(), old(cache.lru), Misses(View(), old(cache.lru), texts))
    {
      var found, missIndices := LookUpAll(texts);
      if |missIndices| > 0 {
        found := Scatter(found, texts, missIndices);
      }
      results := seq(|texts|, i requires 0 <= i < |texts| && found[i].Some? => found[i].value);
    }
  }

  /** The lookups of the first texts, position by position. */
  ghost predicate AreLookups(c: Settings, lru: Lru, texts: seq<string>, found: seq<Option<Embedding>>) {
    |found| <= |texts| && forall k | 0 <= k < |found| :: found[k] == Find(lru, c.hash(texts[k]))
  }

  /** The indices are those of the lookups that found nothing. */
  ghost predicate AreMisses(found: seq<Option<Embedding>>, indices: seq<nat>) {
    && (forall k | 0 <= k < |indices| :: indices[k] < |found| && found[indices[k]].None?)
    && (forall i | 0 <= i < |found| && found[i].None? :: i in indices)
  }

  lemma AreMissesJoins(found: seq<Option<Embedding>>, indices: seq<nat>, hit: Option<Embedding>)
    requires AreMisses(found, indices)
    ensures AreMisses(found + [hit], if hit.None? then indices + [|found|] else indices)
  {
  }

  function Texts(texts: seq<string>, indices: seq<nat>): (picked: seq<string>)
    requires forall k | 0 <= k < |indices| :: indices[k] < |texts|
    ensures |picked| == |indices|
  {
    seq(|indices|, k requires 0 <= k < |indices| => texts[indices[k]])
  }

  /** A batch's lookups so far, and the misses among them. */
  ghost predicate LookedUp(c: Settings, lru: Lru, texts: seq<string>, found: seq<Option<Embedding>>, indices: seq<nat>) {
    && AreLookups(c, lru, texts, found)
    && AreMisses(found, indices)
    && Texts(texts, indices) + Misses(c, lru, texts[|found|..]) == Misses(c, lru, texts)
  }

  lemma {:induction false} LookUpStep(c: Settings, lru: Lru, texts: seq<string>, found: seq<Option<Embedding>>, indices: seq<nat>)
    requires LookedUp(c, lru, texts, found, indices) && |found| < |texts|
    ensures var i := |found|;
      var hit := Find(lru, c.hash(texts[i]));
      LookedUp(c, lru, texts, found + [hit], if hit.None? then indices + [i] else indices)
  {
    var i := |found|;
    var hit := Find(lru, c.hash(texts[i]));
    AreMissesJoins(found, indices, hit);
    assert texts[i..][0] == texts[i] && texts[i..][1..] == texts[i + 1..];
    if hit.None? {
      assert Texts(texts, indices + [i]) == Texts(texts, indices) + [texts[i]];
      Regroup(Texts(texts, indices), [texts[i]], Misses(c, lru, texts[i + 1..]));
    } else {
      assert [] + Misses(c, lru, texts[i + 1..]) == Misses(c, lru, texts[i + 1..]);
    }
  }

  lemma Regroup(a: seq<string>, b: seq<string>, rest: seq<string>)
    ensures a + b + rest == a + (b + rest)
  {
  }

  // ---- Transparency ----

  datatype Call = One(text: string) | Batch(texts: seq<string>)

  function AfterCall(c: Settings, lru: Lru, call: Call): Lru {
    match call
    case One(text) => AfterEmbed(c, lru, text)
    case Batch(texts) => PutAll(c, lru, Misses(c, lru, texts))
  }

  function Answer(c: Settings, lru: Lru, call: Call): seq<Embedding> {
    match call
    case One(text) => [AnswerEmbed(c, lru, text)]
    case Batch(texts) => AnswerBatch(c, lru, texts)
  }

  function Answers(c: Settings, lru: Lru, calls: seq<Call>): seq<seq<Embedding>>
    decreases |calls|
  {
    if calls == [] then [] else [Answer(c, lru, calls[0])] + Answers(c, AfterCall(c, lru, calls[0]), calls[1..])
  }

  function Uncached(c: Settings, call: Call): seq<Embedding> {
    match call
    case One(text) => [c.direct(text)]
    case Batch(texts) => seq(|texts|, i requires 0 <= i < |texts| => c.direct(texts[i]))
  }

  function AllUncached(c: Settings, calls: seq<Call>): seq<seq<Embedding>> {
    if calls == [] then [] else [Uncached(c, calls[0])] + AllUncached(c, calls[1..])
  }

  predicate Uses(call: Call, used: set<string>) {
    match call
    case One(text) => text in used
    case Batch(texts) => forall t | t in texts :: t in used
  }

  /** No two used texts with equal keys have different embeddings; a collision-free hash ensures it. */
  ghost predicate NoHarmfulCollision(c: Settings, used: set<string>) {
    forall a, b | a in used && b in used && c.hash(a) == c.hash(b) :: c.direct(a) == c.direct(b)
  }

  /** Every stored entry is right for every used text with its key. */
  ghost predicate Faithful(c: Settings, used: set<string>, lru: Lru) {
    forall e, t | e in lru && t in used && c.hash(t) == e.0 :: e.1 == c.direct(t)
  }

  lemma PutKeepsFaithful(c: Settings, used: set<string>, lru: Lru, text: string)
    requires NoHarmfulCollision(c, used) && Faithful(c, used, lru) && text in used
    ensures Faithful(c, used, Put(lru, c.budget, c.hash(text), c.direct(text)))
  {
    PutFacts(lru, c.budget, c.hash(text), c.direct(text));
  }

  lemma {:induction false} PutAllKeepsFaithful(c: Settings, used: set<string>, lru: Lru, texts: seq<string>)
    requires NoHarmfulCollision(c, used) && Faithful(c, used, lru) && forall t | t in texts :: t in used
    ensures Faithful(c, used, PutAll(c, lru, texts))
    decreases |texts|
  {
    if texts != [] {
      PutKeepsFaithful(c, used, lru, texts[0]);
      PutAllKeepsFaithful(c, used, Put(lru, c.budget, c.hash(texts[0]), c.direct(texts[0])), texts[1..]);
    }
  }

  lemma {:induction false} MissesAreUsed(c: Settings, lru: Lru, texts: seq<string>)
    ensures forall t | t in Misses(c, lru, texts) :: t in texts
  {
    if texts != [] {
      MissesAreUsed(c, lru, texts[1..]);
    }
  }

  lemma CallIsTransparent(c: Settings, used: set<string>, lru: Lru, call: Call)
    requires NoHarmfulCollision(c, used) && Faithful(c, used, lru) && Uses(call, used)
    ensures Answer(c, lru, call) == Uncached(c, call)
    ensures Faithful(c, used, AfterCall(c, lru, call))
  {
    match call
    case One(text) =>
      AnswerIsRight(c, used, lru, text);
      PutKeepsFaithful(c, used, lru, text);
    case Batch(texts) =>
      forall i | 0 <= i < |texts|
        ensures AnswerEmbed(c, lru, texts[i]) == c.direct(texts[i])
      {
        AnswerIsRight(c, used, lru, texts[i]);
      }
      MissesAreUsed(c, lru, texts);
      PutAllKeepsFaithful(c, used, lru, Misses(c, lru, texts));
  }

  lemma AnswerIsRight(c: Settings, used: set<string>, lru: Lru, text: string)
    requires Faithful(c, used, lru) && text in used
    ensures AnswerEmbed(c, lru, text) == c.direct(text)
  {
    FindFacts(lru, c.hash(text));
  }

  lemma {:induction false} HistoryIsTransparent(c: Settings, used: set<string>, lru: Lru, calls: seq<Call>)
    requires NoHarmfulCollision(c, used) && Faithful(c, used, lru)
    requires forall call | call in calls :: Uses(call, used)
    ensures Answers(c, lru, calls) == AllUncached(c, calls)
    decreases |calls|
  {
    if calls != [] {
      CallIsTransparent(c, used, lru, calls[0]);
      HistoryIsTransparent(c, used, AfterCall(c, lru, calls[0]), calls[1..]);
    }
  }

  /** No history over the used texts can tell the cached embedder from the uncached one. */
  ghost predicate Transparent(c: Settings, used: set<string>) {
    forall calls: seq<Call> | (forall call | call in calls :: Uses(call, used)) ::
      Answers(c, [], calls) == AllUncached(c, calls)
  }

  /** The cache is transparent on a set of texts if and only if no two of them collide harmfully. */
  lemma TransparentIffNoHarmfulCollision(c: Settings, used: set<string>)
    ensures Transparent(c, used) <==> NoHarmfulCollision(c, used)
  {
    if NoHarmfulCollision(c, used) {
      forall calls: seq<Call> | forall call | call in calls :: Uses(call, used)
        ensures Answers(c, [], calls) == AllUncached(c, calls)
      {
        HistoryIsTransparent(c, used, [], calls);
      }
    } else {
      var a, b :| a in used && b in used && c.hash(a) == c.hash(b) && c.direct(a) != c.direct(b);
      CollisionShows(c, a, b);
    }
  }

  lemma CollisionShows(c: Settings, a: string, b: string)
    requires c.hash(a) == c.hash(b) && c.direct(a) != c.direct(b)
    ensures Answers(c, [], [One(a), One(b)]) != AllUncached(c, [One(a), One(b)])
  {
    var calls := [One(a), One(b)];
    var lru := AfterCall(c, [], One(a));
    assert lru == [(c.hash(a), c.direct(a))];
    assert calls[1..] == [One(b)];
    assert Answers(c, lru, [One(b)])[0] == [c.direct(a)];
    assert AllUncached(c, [One(b)])[0] == [c.direct(b)];
    assert Answers(c, [], calls)[1] == Answers(c, lru, [One(b)])[0];
    assert AllUncached(c, calls)[1] == AllUncached(c, [One(b)])[0];
  }

  // ---- Interleaved calls ----

  /** A call looks its text up at once and, on a miss, waits for the provider; other calls go on meanwhile.
      A batch is one such call for each of its texts. */
  datatype Turn = Start(text: string) | Finish(which: nat)

  datatype Flight = Flight(lru: Lru, waiting: seq<string>, answered: seq<(string, Embedding)>)

  function TurnStep(c: Settings, s: Flight, turn: Turn): Flight {
    match turn
    case Start(text) =>
      var hit := Find(s.lru, c.hash(text));
      if hit.Some? then s.(answered := s.answered + [(text, hit.value)]) else s.(waiting := s.waiting + [text])
    case Finish(k) =>
      if k >= |s.waiting| then s
      else
        var text := s.waiting[k];
        Flight(Put(s.lru, c.budget, c.hash(text), c.direct(text)),
               s.waiting[..k] + s.waiting[k + 1..],
               s.answered + [(text, c.direct(text))])
  }

  function Fly(c: Settings, s: Flight, turns: seq<Turn>): Flight
    decreases |turns|
  {
    if turns == [] then s else Fly(c, TurnStep(c, s, turns[0]), turns[1..])
  }

  predicate StartsIn(turns: seq<Turn>, used: set<string>) {
    forall t | t in turns && t.Start? :: t.text in used
  }

  ghost predicate AllRight(c: Settings, s: Flight) {
    forall a | a in s.answered :: a.1 == c.direct(a.0)
  }

  ghost predicate FlightSound(c: Settings, used: set<string>, s: Flight) {
    Faithful(c, used, s.lru) && AllRight(c, s) && forall t | t in s.waiting :: t in used
  }

  lemma TurnKeepsSound(c: Settings, used: set<string>, s: Flight, turn: Turn)
    requires NoHarmfulCollision(c, used) && FlightSound(c, used, s) && (turn.Start? ==> turn.text in used)
    ensures FlightSound(c, used, TurnStep(c, s, turn))
  {
    match turn
    case Start(text) =>
      AnswerIsRight(c, used, s.lru, text);
    case Finish(k) =>
      if k < |s.waiting| {
        PutKeepsFaithful(c, used, s.lru, s.waiting[k]);
      }
  }

  lemma {:induction false} FlightStaysSound(c: Settings, used: set<string>, s: Flight, turns: seq<Turn>)
    requires NoHarmfulCollision(c, used) && FlightSound(c, used, s) && StartsIn(turns, used)
    ensures FlightSound(c, used, Fly(c, s, turns))
    decreases |turns|
  {
    if turns != [] {
      TurnKeepsSound(c, used, s, turns[0]);
      FlightStaysSound(c, used, TurnStep(c, s, turns[0]), turns[1..]);
    }
  }

  /** Every answer of every interleaving over the used texts is the provider's. */
  ghost predicate TransparentInFlight(c: Settings, used: set<string>) {
    forall turns: seq<Turn> | StartsIn(turns, used) :: AllRight(c, Fly(c, Flight([], [], []), turns))
  }

  /** Interleaving asks for no more: the condition is the one for calls one after the other. */
  lemma InterleavedIffNoHarmfulCollision(c: Settings, used: set<string>)
    ensures TransparentInFlight(c, used) <==> NoHarmfulCollision(c, used)
  {
    if NoHarmfulCollision(c, used) {
      forall turns: seq<Turn> | StartsIn(turns, used)
        ensures AllRight(c, Fly(c, Flight([], [], []), turns))
      {
        FlightStaysSound(c, used, Flight([], [], []), turns);
      }
    } else {
      var a, b :| a in used && b in used && c.hash(a) == c.hash(b) && c.direct(a) != c.direct(b);
      var turns := [Start(a), Finish(0), Start(b)];
      CollisionInFlight(c, a, b);
      assert StartsIn(turns, used) && !AllRight(c, Fly(c, Flight([], [], []), turns));
    }
  }

  lemma CollisionInFlight(c: Settings, a: string, b: string)
    requires c.hash(a) == c.hash(b) && c.direct(a) != c.direct(b)
    ensures (b, c.direct(a)) in Fly(c, Flight([], [], []), [Start(a), Finish(0), Start(b)]).answered
  {
    var turns := [Start(a), Finish(0), Start(b)];
    var s := TurnStep(c, Flight([], [], []), Start(a));
    assert s == Flight([], [a], []) by {
      assert [] + [a] == [a];
    }
    var t := TurnStep(c, s, Finish(0));
    assert t.lru == [(c.hash(a), c.direct(a))];
    assert turns[1..] == [Finish(0), Start(b)] && turns[1..][1..] == [Start(b)] && [Start(b)][1..] == [];
    assert Fly(c, Flight([], [], []), turns) == Fly(c, s, turns[1..]) == Fly(c, t, [Start(b)])
        == Fly(c, TurnStep(c, t, Start(b)), []);
    assert (b, c.direct(a)) == TurnStep(c, t, Start(b)).answered[|t.answered|];
  }

  function Started(turns: seq<Turn>): seq<string> {
    if turns == [] then [] else (if turns[0].Start? then [turns[0].text] else []) + Started(turns[1..])
  }

  function TextsOf(answered: seq<(string, Embedding)>): seq<string> {
    if answered == [] then [] else TextsOf(answered[..|answered| - 1]) + [answered[|answered| - 1].0]
  }

  function Accounts(s: Flight): multiset<string> {
    multiset(s.waiting) + multiset(TextsOf(s.answered))
  }

  lemma AnsweredJoins(answered: seq<(string, Embedding)>, text: string, embedding: Embedding)
    ensures TextsOf(answered + [(text, embedding)]) == TextsOf(answered) + [text]
  {
    assert (answered + [(text, embedding)])[..|answered|] == answered;
  }

  lemma OneLeaves(waiting: seq<string>, k: nat)
    requires k < |waiting|
    ensures multiset(waiting) == multiset(waiting[..k] + waiting[k + 1..]) + multiset{waiting[k]}
  {
    assert waiting == waiting[..k] + [waiting[k]] + waiting[k + 1..];
  }

  lemma StartKeepsAccounts(c: Settings, s: Flight, text: string)
    ensures Accounts(TurnStep(c, s, Start(text))) == Accounts(s) + multiset{text}
  {
    var hit := Find(s.lru, c.hash(text));
    if hit.Some? {
      AnsweredJoins(s.answered, text, hit.value);
    }
  }

  lemma FinishKeepsAccounts(c: Settings, s: Flight, k: nat)
    ensures Accounts(TurnStep(c, s, Finish(k))) == Accounts(s)
  {
    if k < |s.waiting| {
      var t := TurnStep(c, s, Finish(k));
      AnsweredJoins(s.answered, s.waiting[k], c.direct(s.waiting[k]));
      OneLeaves(s.waiting, k);
      assert multiset(TextsOf(t.answered)) == multiset(TextsOf(s.answered)) + multiset{s.waiting[k]};
    }
  }

  lemma {:induction false} TurnKeepsAccounts(c: Settings, s: Flight, turn: Turn)
    ensures Accounts(TurnStep(c, s, turn)) == Accounts(s) + multiset(Started([turn]))
  {
    match turn
    case Start(text) => StartKeepsAccounts(c, s, text);
    case Finish(k) => FinishKeepsAccounts(c, s, k);
  }

  lemma StartedSplits(turns: seq<Turn>)
    requires turns != []
    ensures multiset(Started(turns)) == multiset(Started([turns[0]])) + multiset(Started(turns[1..]))
  {
    assert Started(turns) == Started([turns[0]]) + Started(turns[1..]);
  }

  /** Whatever the interleaving, every started call is still waiting or answered, exactly once. */
  lemma {:induction false} CallsAreAnsweredOnce(c: Settings, s: Flight, turns: seq<Turn>)
    ensures Accounts(Fly(c, s, turns)) == Accounts(s) + multiset(Started(turns))
    decreases |turns|
  {
    if turns != [] {
      TurnKeepsAccounts(c, s, turns[0]);
      CallsAreAnsweredOnce(c, TurnStep(c, s, turns[0]), turns[1..]);
      StartedSplits(turns);
    }
  }

  // ---- Size ----

  /** The largest entry limit computed for any of the texts. */
  function PeakLimit(c: Settings, texts: seq<string>): nat {
    if texts == [] then 0
    else Max(Limit(c.budget, c.hash(texts[0]), c.direct(texts[0])), PeakLimit(c, texts[1..]))
  }

  lemma PutBound(lru: Lru, budget: nat, key: Key, embedding: Embedding)
    requires DistinctKeys(lru)
    ensures var next := Put(lru, budget, key, embedding);
      && DistinctKeys(next)
      && |next| <= Max(|lru|, Max(1, Limit(budget, key, embedding)))
  {
    var kept := if |lru| >= Limit(budget, key, embedding) && lru != [] then Delete(lru, lru[0].0) else lru;
    if lru != [] {
      DeleteFacts(lru, lru[0].0);
      DeleteFacts(lru[1..], lru[0].0);
    }
    DeleteFacts(kept, key);
  }

  lemma {:induction false} PutAllBound(c: Settings, lru: Lru, texts: seq<string>)
    requires DistinctKeys(lru)
    ensures DistinctKeys(PutAll(c, lru, texts))
    ensures |PutAll(c, lru, texts)| <= Max(|lru|, Max(1, PeakLimit(c, texts)))
    decreases |texts|
  {
    if texts != [] {
      PutBound(lru, c.budget, c.hash(texts[0]), c.direct(texts[0]));
      PutAllBound(c, Put(lru, c.budget, c.hash(texts[0]), c.direct(texts[0])), texts[1..]);
    }
  }

  /** The texts stored by one call. */
  function Stored(c: Settings, lru: Lru, call: Call): seq<string> {
    match call
    case One(text) => Misses(c, lru, [text])
    case Batch(texts) => Misses(c, lru, texts)
  }

  function AfterCalls(c: Settings, lru: Lru, calls: seq<Call>): Lru
    decreases |calls|
  {
    if calls == [] then lru else AfterCalls(c, AfterCall(c, lru, calls[0]), calls[1..])
  }

  function PeakOver(c: Settings, lru: Lru, calls: seq<Call>): nat
    decreases |calls|
  {
    if calls == [] then 0
    else Max(PeakLimit(c, Stored(c, lru, calls[0])), PeakOver(c, AfterCall(c, lru, calls[0]), calls[1..]))
  }

  lemma {:induction false} SizeBoundFrom(c: Settings, lru: Lru, calls: seq<Call>)
    requires DistinctKeys(lru)
    ensures DistinctKeys(AfterCalls(c, lru, calls))
    ensures |AfterCalls(c, lru, calls)| <= Max(|lru|, Max(1, PeakOver(c, lru, calls)))
    decreases |calls|
  {
    if calls != [] {
      CallStores(c, lru, calls[0]);
      PutAllBound(c, lru, Stored(c, lru, calls[0]));
      SizeBoundFrom(c, AfterCall(c, lru, calls[0]), calls[1..]);
    }
  }

  lemma CallStores(c: Settings, lru: Lru, call: Call)
    ensures AfterCall(c, lru, call) == PutAll(c, lru, Stored(c, lru, call))
  {
    if call.One? {
      MissesOfOne(c, lru, call.text);
    }
  }

  lemma MissesOfOne(c: Settings, lru: Lru, text: string)
    ensures AfterEmbed(c, lru, text) == PutAll(c, lru, Misses(c, lru, [text]))
  {
    var one := [text];
    assert one[0] == text && one[1..] == [];
    assert Misses(c, lru, one[1..]) == [];
    if Find(lru, c.hash(text)).None? {
      assert Misses(c, lru, one) == one;
      assert PutAll(c, lru, one) == PutAll(c, Put(lru, c.budget, c.hash(text), c.direct(text)), one[1..]);
    } else {
      assert Misses(c, lru, one) == [];
    }
  }

  /** After any history the cache holds at most one entry or as many as the greatest limit so far. */
  lemma SizeBound(c: Settings, calls: seq<Call>)
    ensures |AfterCalls(c, [], calls)| <= Max(1, PeakOver(c, [], calls))
  {
    SizeBoundFrom(c, [], calls);
  }

  /** No text that is started or still waiting allows more than `limit` entries. */
  predicate LimitedTurns(c: Settings, s: Flight, turns: seq<Turn>, limit: nat) {
    && (forall t | t in s.waiting :: Limit(c.budget, c.hash(t), c.direct(t)) <= limit)
    && (forall turn | turn in turns && turn.Start? :: Limit(c.budget, c.hash(turn.text), c.direct(turn.text)) <= limit)
  }

  lemma TurnBound(c: Settings, s: Flight, turn: Turn, limit: nat)
    requires DistinctKeys(s.lru) && forall t | t in s.waiting :: Limit(c.budget, c.hash(t), c.direct(t)) <= limit
    ensures var next := TurnStep(c, s, turn).lru;
      DistinctKeys(next) && |next| <= Max(|s.lru|, Max(1, limit))
  {
    if turn.Finish? && turn.which < |s.waiting| {
      var text := s.waiting[turn.which];
      assert text in s.waiting;
      PutBound(s.lru, c.budget, c.hash(text), c.direct(text));
    }
  }

  /** The size bound over every interleaving. */
  lemma {:induction false} FlightSizeBound(c: Settings, s: Flight, turns: seq<Turn>, limit: nat)
    requires DistinctKeys(s.lru) && LimitedTurns(c, s, turns, limit)
    ensures DistinctKeys(Fly(c, s, turns).lru)
    ensures |Fly(c, s, turns).lru| <= Max(|s.lru|, Max(1, limit))
    decreases |turns|
  {
    if turns != [] {
      TurnBound(c, s, turns[0], limit);
      assert turns[0] in turns && forall t | t in turns[1..] :: t in turns;
      FlightSizeBound(c, TurnStep(c, s, turns[0]), turns[1..], limit);
    }
  }

  // ---- Which entries stay ----

  type Store = (Key, Embedding)

  /** The cache after storing these one after the other. */
  function AfterStores(budget: nat, stores: seq<Store>): Lru {
    if stores == [] then []
    else
      var last := stores[|stores| - 1];
      Put(AfterStores(budget, stores[..|stores| - 1]), budget, last.0, last.1)
  }

  /** Position `i` is the last one at which its key is stored. */
  predicate LastOfKey(stores: seq<Store>, i: nat)
    requires i < |stores|
  {
    forall j | i < j < |stores| :: stores[j].0 != stores[i].0
  }

  /** The entries from position `i` on that are not stored again later, in order. */
  function LatestFrom(stores: seq<Store>, i: nat): Lru
    requires i <= |stores|
    decreases |stores| - i
  {
    if i == |stores| then []
    else (if LastOfKey(stores, i) then [stores[i]] else []) + LatestFrom(stores, i + 1)
  }

  lemma {:induction false} DeleteAppends(a: Lru, b: Lru, key: Key)
    ensures Delete(a + b, key) == Delete(a, key) + Delete(b, key)
  {
    if a == [] {
      assert a + b == b;
    } else {
      assert (a + b)[1..] == a[1..] + b && (a + b)[0] == a[0];
      DeleteAppends(a[1..], b, key);
    }
  }

  /** Storing once more takes the key out from where it stood and puts it at the end. */
  lemma {:induction false} LatestGrows(stores: seq<Store>, store: Store, i: nat)
    requires i <= |stores|
    ensures LatestFrom(stores + [store], i) == Delete(LatestFrom(stores, i), store.0) + [store]
    decreases |stores| - i
  {
    var more := stores + [store];
    if i == |stores| {
      assert LatestFrom(more, i + 1) == [] && LastOfKey(more, i);
    } else {
      LatestGrows(stores, store, i + 1);
      LastGrows(stores, store, i);
      var here: Lru := if LastOfKey(stores, i) then [stores[i]] else [];
      DeleteAppends(here, LatestFrom(stores, i + 1), store.0);
      assert |here| == 1 ==> here[1..] == [];
    }
  }

  lemma LastGrows(stores: seq<Store>, store: Store, i: nat)
    requires i < |stores|
    ensures LastOfKey(stores + [store], i) <==> LastOfKey(stores, i) && stores[i].0 != store.0
  {
    var more := stores + [store];
    if LastOfKey(more, i) {
      assert more[|stores|] == store;
      forall j | i < j < |stores| ensures stores[j].0 != stores[i].0 {
        assert more[j] == stores[j];
      }
    }
  }

  lemma {:induction false} LatestAt(stores: seq<Store>, i: nat)
    requires i <= |stores|
    ensures forall e | e in LatestFrom(stores, i) :: exists j :: i <= j < |stores| && stores[j] == e && LastOfKey(stores, j)
    ensures DistinctKeys(LatestFrom(stores, i))
    decreases |stores| - i
  {
    if i < |stores| {
      LatestAt(stores, i + 1);
      var rest := LatestFrom(stores, i + 1);
      forall m | 0 <= m < |rest| && LastOfKey(stores, i)
        ensures rest[m].0 != stores[i].0
      {
        assert rest[m] in rest;
      }
    }
  }

  /** The cache always holds the entries stored last: it is an end of the list of all entries not stored again, in
      the order of storing. So what is evicted has been stored longest ago. */
  lemma {:induction false} HoldsLatest(budget: nat, stores: seq<Store>) returns (evicted: Lru)
    ensures evicted + AfterStores(budget, stores) == LatestFrom(stores, 0)
  {
    if stores == [] {
      evicted := [];
    } else {
      var n := |stores| - 1;
      var before, last := stores[..n], stores[n];
      evicted := HoldsLatest(budget, before);
      var lru := AfterStores(budget, before);
      assert stores == before + [last];
      LatestGrows(before, last, 0);
      LatestAt(before, 0);
      if |lru| >= Limit(budget, last.0, last.1) && lru != [] {
        FirstGoes(evicted, lru);
        evicted := evicted + [lru[0]];
        lru := lru[1..];
      }
      assert evicted + lru == LatestFrom(before, 0);
      DeleteAppends(evicted, lru, last.0);
      evicted := Delete(evicted, last.0);
    }
  }

  lemma FirstGoes(evicted: Lru, lru: Lru)
    requires lru != [] && DistinctKeys(evicted + lru)
    ensures Delete(lru, lru[0].0) == lru[1..]
    ensures evicted + [lru[0]] + lru[1..] == evicted + lru
  {
    var all := evicted + lru;
    forall k | 1 <= k < |lru| ensures lru[k].0 != lru[0].0 {
      assert all[|evicted|] == lru[0] && all[|evicted| + k] == lru[k];
    }
    DeleteAbsent(lru[1..], lru[0].0);
  }

  lemma {:induction false} DeleteAbsent(lru: Lru, key: Key)
    requires forall k | 0 <= k < |lru| :: lru[k].0 != key
    ensures Delete(lru, key) == lru
  {
    if lru != [] {
      DeleteAbsent(lru[1..], key);
      assert lru == [lru[0]] + lru[1..];
    }
  }

  /** Under a common limit the cache keeps as many as the limit allows: nothing is evicted before it is reached. */
  lemma {:induction false} NothingEvictedEarly(budget: nat, stores: seq<Store>)
    requires forall s | s in stores :: |LatestFrom(stores, 0)| < Limit(budget, s.0, s.1)
    ensures AfterStores(budget, stores) == LatestFrom(stores, 0)
  {
    if stores != [] {
      var n := |stores| - 1;
      var before, last := stores[..n], stores[n];
      assert stores == before + [last] && last in stores;
      LatestNeverShrinks(before, last);
      assert forall s | s in before :: s in stores;
      NothingEvictedEarly(budget, before);
      PutKeepsAll(LatestFrom(before, 0), budget, last);
    }
  }

  /** In octets: while one more entry of any size stored so far would fit, nothing is evicted. */
  lemma NothingEvictedWhileItFits(budget: nat, stores: seq<Store>)
    requires forall s | s in stores :: (|LatestFrom(stores, 0)| + 1) * (|s.1| * 4 + |s.0| * 2) <= budget
    ensures AfterStores(budget, stores) == LatestFrom(stores, 0)
  {
    forall s | s in stores
      ensures |LatestFrom(stores, 0)| < Limit(budget, s.0, s.1)
    {
      RoomLeft(|LatestFrom(stores, 0)|, |s.1| * 4 + |s.0| * 2, budget);
    }
    NothingEvictedEarly(budget, stores);
  }

  lemma TimesMonotone(a: nat, b: nat, size: nat)
    requires a <= b
    ensures a * size <= b * size
  {
    assert (b - a) * size >= 0;
  }

  lemma RoomLeft(n: nat, size: nat, budget: nat)
    requires size > 0 && (n + 1) * size <= budget
    ensures n < budget / size
  {
    var most := budget / size;
    assert budget < most * size + size;
    if most <= n {
      TimesMonotone(most + 1, n + 1, size);
    }
  }

  lemma PutKeepsAll(lru: Lru, budget: nat, store: Store)
    requires |lru| < Limit(budget, store.0, store.1)
    ensures Put(lru, budget, store.0, store.1) == Delete(lru, store.0) + [store]
  {
  }

  lemma LatestNeverShrinks(before: seq<Store>, store: Store)
    ensures LatestFrom(before + [store], 0) == Delete(LatestFrom(before, 0), store.0) + [store]
    ensures |LatestFrom(before + [store], 0)| >= |LatestFrom(before, 0)|
  {
    LatestGrows(before, store, 0);
    LatestAt(before, 0);
    DeleteOne(LatestFrom(before, 0), store.0);
  }

  lemma {:induction false} DeleteOne(lru: Lru, key: Key)
    requires DistinctKeys(lru)
    ensures |Delete(lru, key)| + 1 >= |lru|
  {
    if lru != [] {
      if lru[0].0 == key {
        DeleteAbsent(lru[1..], key);
      } else {
        DeleteOne(lru[1..], key);
      }
    }
  }

  /** What a history of calls, or of interleaved turns, stores. */
  function StoresOf(c: Settings, texts: seq<string>): seq<Store> {
    if texts == [] then []
    else StoresOf(c, texts[..|texts| - 1]) + [(c.hash(texts[|texts| - 1]), c.direct(texts[|texts| - 1]))]
  }

  function FinishedTexts(c: Settings, s: Flight, turns: seq<Turn>): seq<string>
    decreases |turns|
  {
    if turns == [] then []
    else FinishedBy(s, turns[0]) + FinishedTexts(c, TurnStep(c, s, turns[0]), turns[1..])
  }

  function FinishedBy(s: Flight, turn: Turn): seq<string> {
    if turn.Finish? && turn.which < |s.waiting| then [s.waiting[turn.which]] else []
  }

  lemma OneMoreStored(c: Settings, done: seq<string>, text: string)
    ensures AfterStores(c.budget, StoresOf(c, done + [text]))
         == Put(AfterStores(c.budget, StoresOf(c, done)), c.budget, c.hash(text), c.direct(text))
  {
    var more, store := done + [text], (c.hash(text), c.direct(text));
    assert more[..|done|] == done;
    var stores := StoresOf(c, more);
    assert stores == StoresOf(c, done) + [store] && stores[..|stores| - 1] == StoresOf(c, done);
  }

  /** Every interleaving leaves the cache that storing its finished calls in order leaves. */
  lemma {:induction false} FlightStores(c: Settings, s: Flight, turns: seq<Turn>, done: seq<string>)
    requires s.lru == AfterStores(c.budget, StoresOf(c, done))
    ensures Fly(c, s, turns).lru == AfterStores(c.budget, StoresOf(c, done + FinishedTexts(c, s, turns)))
    decreases |turns|
  {
    if turns == [] {
      assert done + [] == done;
    } else {
      var next, finished := TurnStep(c, s, turns[0]), FinishedBy(s, turns[0]);
      TurnStores(c, s, turns[0], done);
      FlightStores(c, next, turns[1..], done + finished);
      FlightUnfolds(c, s, turns, done);
    }
  }

  lemma FlightUnfolds(c: Settings, s: Flight, turns: seq<Turn>, done: seq<string>)
    requires turns != []
    ensures var next := TurnStep(c, s, turns[0]);
      && Fly(c, s, turns) == Fly(c, next, turns[1..])
      && done + FinishedTexts(c, s, turns) == done + FinishedBy(s, turns[0]) + FinishedTexts(c, next, turns[1..])
  {
  }

  lemma TurnStores(c: Settings, s: Flight, turn: Turn, done: seq<string>)
    requires s.lru == AfterStores(c.budget, StoresOf(c, done))
    ensures TurnStep(c, s, turn).lru == AfterStores(c.budget, StoresOf(c, done + FinishedBy(s, turn)))
  {
    if turn.Finish? && turn.which < |s.waiting| {
      OneMoreStored(c, done, s.waiting[turn.which]);
    } else {
      assert done + [] == done;
    }
  }

  /** In memory: entries of one size never take more than the budget, or than a single entry. */
  lemma {:induction false} BytesBound(budget: nat, stores: seq<Store>, size: nat)
    requires size > 0 && forall s | s in stores :: |s.1| * 4 + |s.0| * 2 == size
    ensures |AfterStores(budget, stores)| <= Max(1, budget / size) && DistinctKeys(AfterStores(budget, stores))
    ensures |AfterStores(budget, stores)| * size <= Max(budget, size)
  {
    if stores != [] {
      var n := |stores| - 1;
      assert stores[n] in stores && forall s | s in stores[..n] :: s in stores;
      BytesBound(budget, stores[..n], size);
      PutBound(AfterStores(budget, stores[..n]), budget, stores[n].0, stores[n].1);
    }
    Times(|AfterStores(budget, stores)|, budget, size);
  }

  lemma Times(n: nat, budget: nat, size: nat)
    requires size > 0 && n <= Max(1, budget / size)
    ensures n * size <= Max(budget, size)
  {
    var most := budget / size;
    assert most * size <= budget;
    if n > 1 {
      assert n * size <= most * size by {
        assert (most - n) * size >= 0;
      }
    }
  }
}
