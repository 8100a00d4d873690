/** Words of UTF-8 texts: how they split at whitespace, and that collapsing whitespace keeps them. */
module LatexWords {
  import opened Utf8
  import opened Document
  import opened LatexText

  /** The words of a node's own text. */
  function NodeWords(node: DocNode): seq<Text> {
    if node.text.Some? then Words(node.text.value) else []
  }

  predicate StartsWithSpace(t: Text) {
    t != [] && t[0] in {' ', '\n'}
  }

  lemma FirstOfValid(t: Text)
    requires Valid(t) && t != []
    ensures FirstLen(t) == CharLen(t[0]) <= |t| && Valid(t[FirstLen(t)..])
  {
  }

  lemma FirstKept(a: Text, b: Text)
    requires a != [] && CharLen(a[0]) <= |a|
    ensures FirstLen(a + b) == FirstLen(a) && First(a + b) == First(a)
    ensures (a + b)[FirstLen(a)..] == a[FirstLen(a)..] + b
  {
    assert (a + b)[0] == a[0];
  }

  lemma SpaceFirst(t: Text)
    requires StartsWithSpace(t)
    ensures FirstLen(t) == 1 && IsSpace(First(t)) && WordLen(t) == 0 && Words(t) == Words(t[1..])
  {
    assert First(t) == [t[0]];
  }

  lemma {:induction false} WordEndsAtSpace(a: Text, t: Text)
    requires Valid(a) && (t == [] || StartsWithSpace(t))
    ensures WordLen(a + t) == WordLen(a) && Valid(a[WordLen(a)..])
    decreases |a|
  {
    if a == [] {
      assert a + t == t;
      if t != [] {
        SpaceFirst(t);
      }
    } else {
      FirstOfValid(a);
      FirstKept(a, t);
      var rest := a[FirstLen(a)..];
      if !IsSpace(First(a)) {
        WordEndsAtSpace(rest, t);
        assert a[WordLen(a)..] == rest[WordLen(rest)..];
      }
    }
  }

  lemma SpaceSkipped(t: Text)
    requires t != [] && IsSpace(First(t))
    ensures Words(t) == Words(t[FirstLen(t)..])
  {
  }

  lemma FirstWord(t: Text)
    requires t != [] && !IsSpace(First(t))
    ensures 0 < WordLen(t) <= |t| && Words(t) == [t[..WordLen(t)]] + Words(t[WordLen(t)..])
  {
  }

  lemma CutSum(a: Text, t: Text, n: nat)
    requires n <= |a|
    ensures (a + t)[..n] == a[..n] && (a + t)[n..] == a[n..] + t
  {
  }

  lemma CutTwice(t: Text, n: nat, m: nat)
    requires n + m <= |t|
    ensures t[..n + m] == t[..n] + t[n..][..m]
  {
  }

  lemma FirstWordKept(a: Text, t: Text)
    requires Valid(a) && a != [] && !IsSpace(First(a)) && (t == [] || StartsWithSpace(t))
    ensures Words(a + t) == [a[..WordLen(a)]] + Words(a[WordLen(a)..] + t)
  {
    var n := WordLen(a);
    WordEndsAtSpace(a, t);
    FirstOfValid(a);
    FirstKept(a, t);
    FirstWord(a + t);
    CutSum(a, t, n);
  }

  lemma BlankKept(a: Text, t: Text)
    requires Valid(a) && a != [] && IsSpace(First(a))
    ensures Words(a + t) == Words(a[FirstLen(a)..] + t)
  {
    FirstOfValid(a);
    FirstKept(a, t);
    SpaceSkipped(a + t);
  }

  /** A space separates words. */
  lemma {:induction false} WordsSplit(a: Text, t: Text)
    requires Valid(a) && (t == [] || StartsWithSpace(t))
    ensures Words(a + t) == Words(a) + Words(t)
    decreases |a|, 1
  {
    if a == [] {
      assert a + t == t;
    } else if IsSpace(First(a)) {
      WordsSplitBlank(a, t);
    } else {
      WordsSplitWord(a, t);
    }
  }

  lemma {:induction false} WordsSplitBlank(a: Text, t: Text)
    requires Valid(a) && a != [] && IsSpace(First(a)) && (t == [] || StartsWithSpace(t))
    ensures Words(a + t) == Words(a) + Words(t)
    decreases |a|, 0
  {
    FirstOfValid(a);
    BlankKept(a, t);
    SpaceSkipped(a);
    WordsSplit(a[FirstLen(a)..], t);
  }

  lemma {:induction false} WordsSplitWord(a: Text, t: Text)
    requires Valid(a) && a != [] && !IsSpace(First(a)) && (t == [] || StartsWithSpace(t))
    ensures Words(a + t) == Words(a) + Words(t)
    decreases |a|, 0
  {
    FirstWord(a);
    FirstWordKept(a, t);
    WordEndsAtSpace(a, t);
    WordsSplit(a[WordLen(a)..], t);
    Regroup([a[..WordLen(a)]], Words(a[WordLen(a)..]), Words(t));
  }

  lemma Regroup(a: seq<Text>, b: seq<Text>, c: seq<Text>)
    ensures a + (b + c) == a + b + c
  {
  }

  lemma WordsAround(a: Text, t: Text)
    requires Valid(a) && StartsWithSpace(t)
    ensures Words(a + t) == Words(a) + Words(t[1..])
  {
    WordsSplit(a, t);
    SpaceFirst(t);
  }

  lemma {:induction false} WordsAroundChar(a: Text, c: char, rest: Text)
    requires Valid(a) && c in {' ', '\n'}
    ensures Words(a + ([c] + rest)) == Words(a) + Words(rest)
  {
    var t := [c] + rest;
    assert t[1..] == rest;
    WordsAround(a, t);
  }

  // ---- Collapsing ----

  /** One whole word. */
  predicate Solid(w: Text) {
    w != [] && Valid(w) && WordLen(w) == |w|
  }

  lemma SolidIsOneWord(w: Text)
    requires Solid(w)
    ensures Words(w) == [w]
  {
    FirstWord(w);
    assert w[|w|..] == [] && w[..|w|] == w;
  }

  lemma {:induction false} WordLenOfWord(t: Text)
    requires Valid(t)
    ensures WordLen(t[..WordLen(t)]) == WordLen(t)
    decreases |t|
  {
    if t != [] && !IsSpace(First(t)) {
      FirstOfValid(t);
      var n := FirstLen(t);
      var rest := t[n..];
      WordLenOfWord(rest);
      CutTwice(t, n, WordLen(rest));
    } else {
      assert t[..0] == [];
    }
  }

  lemma {:induction false} WordEndIsBoundary(t: Text)
    requires Valid(t)
    ensures Boundary(t, WordLen(t))
    decreases |t|
  {
    if t != [] && !IsSpace(First(t)) {
      FirstOfValid(t);
      var rest := t[FirstLen(t)..];
      WordEndIsBoundary(rest);
      if WordLen(rest) == 0 {
        NextBoundary(t, 0);
      }
    }
  }

  lemma WordIsSolid(t: Text)
    requires Valid(t) && t != [] && !IsSpace(First(t))
    ensures Solid(t[..WordLen(t)]) && Valid(t[WordLen(t)..])
  {
    FirstWord(t);
    WordLenOfWord(t);
    WordEndIsBoundary(t);
    SplitValid(t, WordLen(t));
  }

  lemma {:induction false} WordsAreSolid(t: Text)
    requires Valid(t)
    ensures forall w | w in Words(t) :: Solid(w)
    decreases |t|
  {
    if t != [] {
      if IsSpace(First(t)) {
        FirstOfValid(t);
        SpaceSkipped(t);
        WordsAreSolid(t[FirstLen(t)..]);
      } else {
        FirstWord(t);
        WordIsSolid(t);
        WordsAreSolid(t[WordLen(t)..]);
      }
    }
  }

  lemma {:induction false} WordBefore(w: Text, tail: Text)
    requires Solid(w) && Valid(tail)
    ensures Words(w + " " + tail) == [w] + Words(tail) && Valid(w + " " + tail)
  {
    assert w + " " + tail == w + (" " + tail);
    SolidIsOneWord(w);
    WordsAroundChar(w, ' ', tail);
    ConcatValid(" ", tail);
    ConcatValid(w, " " + tail);
  }

  lemma {:induction false} JoinedWords(words: seq<Text>)
    requires forall w | w in words :: Solid(w)
    ensures Valid(JoinWords(words)) && Words(JoinWords(words)) == words
  {
    if |words| == 1 {
      SolidIsOneWord(words[0]);
    } else if |words| > 1 {
      JoinedWords(words[1..]);
      WordBefore(words[0], JoinWords(words[1..]));
    }
  }

  /** Collapsing whitespace keeps the words, and leaves nothing only if there are none. */
  lemma {:induction false} CollapseKeepsWords(t: Text)
    requires Valid(t)
    ensures Words(CollapseWhitespace(t)) == Words(t)
    ensures CollapseWhitespace(t) == [] <==> Words(t) == []
  {
    WordsAreSolid(t);
    JoinedWords(Words(t));
  }
}
