/** Whitespace handling on UTF-8 texts, as Rust's string methods do it character by character. */
module LatexText {
  import opened Wrappers
  import opened Utf8
  import Joining

  /** The length of the first character, however the text was made. */
  function FirstLen(t: Text): (n: nat)
    requires t != []
    ensures 1 <= n <= |t|
  {
    Min(CharLen(t[0]), |t|)
  }

  function First(t: Text): Text
    requires t != []
  {
    t[..FirstLen(t)]
  }

  /** Rust's `char::is_whitespace` on the octets of one character. */
  predicate IsSpace(c: Text) {
    || (|c| == 1 && (InRange(c[0], 9, 13) || c[0] == ' '))
    || (|c| == 2 && c[0] as int == 0xC2 && c[1] as int in {0x85, 0xA0})
    || (|c| == 3 && c[0] as int == 0xE1 && c[1] as int == 0x9A && c[2] as int == 0x80)
    || (|c| == 3 && c[0] as int == 0xE2 && c[1] as int == 0x80
        && (InRange(c[2], 0x80, 0x8A) || c[2] as int in {0xA8, 0xA9, 0xAF}))
    || (|c| == 3 && c[0] as int == 0xE2 && c[1] as int == 0x81 && c[2] as int == 0x9F)
    || (|c| == 3 && c[0] as int == 0xE3 && c[1] as int == 0x80 && c[2] as int == 0x80)
  }

  function TrimStart(t: Text): Text
    decreases |t|
  {
    if t != [] && IsSpace(First(t)) then TrimStart(t[FirstLen(t)..]) else t
  }

  predicate AllSpace(t: Text)
    decreases |t|
  {
    t == [] || (IsSpace(First(t)) && AllSpace(t[FirstLen(t)..]))
  }

  function TrimEnd(t: Text): Text
    decreases |t|
  {
    if AllSpace(t) then [] else First(t) + TrimEnd(t[FirstLen(t)..])
  }

  function Trim(t: Text): Text {
    TrimEnd(TrimStart(t))
  }

  function TrimEndNewlines(t: Text): Text {
    if t != [] && t[|t| - 1] == '\n' then TrimEndNewlines(t[..|t| - 1]) else t
  }

  /** The leading run of non-space characters. */
  function WordLen(t: Text): (n: nat)
    ensures n <= |t|
    decreases |t|
  {
    if t == [] || IsSpace(First(t)) then 0 else FirstLen(t) + WordLen(t[FirstLen(t)..])
  }

  function Words(t: Text): seq<Text>
    decreases |t|
  {
    if t == [] then []
    else if IsSpace(First(t)) then Words(t[FirstLen(t)..])
    else
      var n := FirstLen(t) + WordLen(t[FirstLen(t)..]);
      [t[..n]] + Words(t[n..])
  }

  function JoinWords(words: seq<Text>): Text {
    Joining.Join(words, " ")
  }

  /** Runs of whitespace become single spaces. */
  function CollapseWhitespace(t: Text): Text {
    JoinWords(Words(t))
  }

  predicate StartsWithAt(src: Text, pos: nat, needle: Text) {
    pos + |needle| <= |src| && src[pos..pos + |needle|] == needle
  }

  /** The first position at or after `from` where the needle occurs, or the length of the text. */
  function FindFrom(src: Text, from: nat, needle: Text): (i: nat)
    requires from <= |src|
    ensures from <= i <= |src|
    ensures forall k | from <= k < i :: !StartsWithAt(src, k, needle)
    ensures i < |src| ==> StartsWithAt(src, i, needle)
    decreases |src| - from
  {
    if from == |src| || StartsWithAt(src, from, needle) then from else FindFrom(src, from + 1, needle)
  }

  lemma OtherOctet(src: Text, k: nat, marker: Text)
    requires k < |src| && marker != []
    ensures src[k] != marker[0] ==> !StartsWithAt(src, k, marker)
  {
    if StartsWithAt(src, k, marker) {
      assert src[k..k + |marker|][0] == src[k];
    }
  }

  lemma {:induction false} SameFind(src: Text, pos: nat, next: nat, marker: Text)
    requires pos <= next <= |src| && forall k: nat | pos <= k < next :: !StartsWithAt(src, k, marker)
    ensures FindFrom(src, pos, marker) == FindFrom(src, next, marker)
    decreases next - pos
  {
    if pos < next {
      SameFind(src, pos + 1, next, marker);
    }
  }

  /** The first octet after an ASCII octet starts a character. */
  lemma AfterAscii(src: Text, i: nat)
    requires Valid(src) && i < |src| && src[i] as int < 0x80
    ensures Boundary(src, i) && Boundary(src, i + 1)
  {
    NextBoundary(src, i);
  }

  // ---- Trimming ----

  /** Text of visible ASCII characters has nothing to trim. */
  lemma InkTrims(t: Text)
    requires forall c | c in t :: 32 < c as int < 127
    ensures Trim(t) == t
  {
    InkTrimsEnd(t);
    assert t != [] ==> t[0] in t && First(t) == [t[0]];
  }

  lemma {:induction false} InkTrimsEnd(t: Text)
    requires forall c | c in t :: 32 < c as int < 127
    ensures TrimEnd(t) == t
  {
    if t != [] {
      assert t[0] in t && First(t) == [t[0]] && t[1..] == t[FirstLen(t)..];
      assert forall c | c in t[1..] :: c in t;
      InkTrimsEnd(t[1..]);
      assert t == [t[0]] + t[1..];
    }
  }

  /** Trimming takes off whitespace at both ends, and all of it: what is left is empty or begins with another character
      and ends in one. */
  lemma {:induction false} TrimMeans(t: Text) returns (front: Text, back: Text)
    ensures t == front + Trim(t) + back && AllSpace(front) && AllSpace(back)
    ensures Trim(t) != [] ==> !IsSpace(First(Trim(t))) && EndsInInk(Trim(t))
  {
    front := TrimStartMeans(t);
    var u := TrimStart(t);
    back := TrimEndMeans(u);
    Stuck(front, TrimEnd(u), back);
  }

  lemma Stuck(a: Text, b: Text, c: Text)
    ensures a + (b + c) == a + b + c
  {
  }

  /** The last character is not whitespace. */
  predicate EndsInInk(t: Text)
    decreases |t|
  {
    t != [] && (if FirstLen(t) == |t| then !IsSpace(t) else EndsInInk(t[FirstLen(t)..]))
  }

  lemma {:induction false} TrimStartMeans(t: Text) returns (front: Text)
    ensures t == front + TrimStart(t) && AllSpace(front)
    ensures TrimStart(t) != [] ==> !IsSpace(First(TrimStart(t)))
    decreases |t|
  {
    if t != [] && IsSpace(First(t)) {
      var rest := TrimStartMeans(t[FirstLen(t)..]);
      front := First(t) + rest;
      SpaceJoins(First(t), rest);
    } else {
      front := [];
    }
  }

  lemma SpaceJoins(c: Text, rest: Text)
    requires IsSpace(c) && AllSpace(rest)
    ensures AllSpace(c + rest)
  {
    SpaceIsOne(c, rest);
    assert (c + rest)[|c|..] == rest;
  }

  /** The whitespace characters are complete ones. */
  lemma SpaceIsOne(c: Text, rest: Text)
    requires IsSpace(c)
    ensures c + rest != [] && FirstLen(c + rest) == |c| && First(c + rest) == c
  {
    assert (c + rest)[..|c|] == c;
  }

  lemma {:induction false} TrimEndMeans(t: Text) returns (back: Text)
    ensures t == TrimEnd(t) + back && AllSpace(back)
    ensures TrimEnd(t) != [] ==> First(TrimEnd(t)) == First(t) && EndsInInk(TrimEnd(t))
    decreases |t|
  {
    if AllSpace(t) {
      back := t;
    } else {
      var later := t[FirstLen(t)..];
      back := TrimEndMeans(later);
      Reassemble(t, TrimEnd(later), back);
      KeepsFirst(t, TrimEnd(later));
    }
  }

  lemma Reassemble(t: Text, rest: Text, back: Text)
    requires t != [] && t[FirstLen(t)..] == rest + back
    ensures t == First(t) + rest + back
  {
    assert t == t[..FirstLen(t)] + t[FirstLen(t)..];
  }

  lemma KeepsFirst(t: Text, rest: Text)
    requires t != [] && !AllSpace(t)
    requires rest == [] ==> !IsSpace(First(t))
    requires rest != [] ==> EndsInInk(rest) && FirstLen(t) < |t|
    ensures var joined := First(t) + rest; joined != [] && First(joined) == First(t) && EndsInInk(joined)
  {
    var joined := First(t) + rest;
    assert joined[0] == t[0];
    assert joined[..|First(t)|] == First(t) && joined[|First(t)|..] == rest;
  }
}
